/**
 * The table view's display helpers: the text colour of a status cell and
 * the human-readable form of a status value (`not_available` becomes
 * `Not Available`). Both work on the wire strings of the status axes.
 */
module JobTable {
  import Text
  import opened Jobs

  // ------------------------------------------------------------------ colours

  /** `getStatusColor`: green for a positive outcome, red for a negative one, amber while in process. */
  function GetStatusColor(status: string): string {
    if status == "yes" || status == "done" || status == "offer" then "text-success"
    else if status == "no" || status == "rejected" then "text-destructive"
    else if status == "in_process" then "text-warning"
    else "text-muted-foreground"
  }

  /**
   * What each cell of a row is coloured: every axis shows its positive value
   * green and its negative value red; `in_process` is amber; waiting values,
   * `not_available` and an interview round that ended in `not_selected` are muted.
   */
  lemma CellColours(job: Job)
    ensures GetStatusColor(AppliedWire(job.applied)) == if job.applied.Yes? then "text-success" else "text-destructive"
    ensures GetStatusColor(ReferralWire(job.referral)) ==
      match job.referral
      case Yes => "text-success"
      case No => "text-destructive"
      case NotAvailable => "text-muted-foreground"
    ensures GetStatusColor(ShortlistedWire(job.shortlisted)) ==
      match job.shortlisted
      case Yes => "text-success"
      case No => "text-destructive"
      case Waiting => "text-muted-foreground"
    ensures GetStatusColor(InterviewsWire(job.interviews)) ==
      match job.interviews
      case Done => "text-success"
      case InProcess => "text-warning"
      case Waiting => "text-muted-foreground"
      case NotSelected => "text-muted-foreground"
    ensures GetStatusColor(SelectedWire(job.selected)) ==
      match job.selected
      case Offer => "text-success"
      case No => "text-destructive"
      case Waiting => "text-muted-foreground"
  {
    assert "not_available" != "no";
    assert "not_selected" != "no";
  }

  // ------------------------------------------------------------------ formatting

  /** `s.replace(c, d)` with a string pattern: only the first occurrence of `c` is replaced. */
  function ReplaceFirst(s: string, c: char, d: char): (r: string)
    ensures |r| == |s|
    ensures forall k :: 0 <= k < |s| && k != Text.IndexOf(s, c) ==> r[k] == s[k]
    ensures Text.IndexOf(s, c) < |s| ==> r[Text.IndexOf(s, c)] == d
  {
    var i := Text.IndexOf(s, c);
    if i < |s| then s[i := d] else s
  }

  /** `\w`: an ASCII letter, digit or underscore. */
  predicate IsWordChar(c: char) {
    ('a' <= c <= 'z') || ('A' <= c <= 'Z') || ('0' <= c <= '9') || c == '_'
  }

  /** Position `k` of `s` matches `\b\w`: a word character not preceded by one (`afterWord` tells what precedes `s`). */
  predicate IsWordStart(s: string, k: nat, afterWord: bool)
    requires k < |s|
  {
    IsWordChar(s[k]) && !(if k == 0 then afterWord else IsWordChar(s[k - 1]))
  }

  /** `s.replace(/\b\w/g, l => l.toUpperCase())`, for a string following a word character iff `afterWord`. */
  function UpperWordStarts(s: string, afterWord: bool): (r: string)
    ensures |r| == |s|
    ensures forall k :: 0 <= k < |s| ==>
      r[k] == if IsWordStart(s, k, afterWord) then Text.UpperChar(s[k]) else s[k]
  {
    if s == [] then []
    else
      var rest := UpperWordStarts(s[1..], IsWordChar(s[0]));
      var r := [if IsWordChar(s[0]) && !afterWord then Text.UpperChar(s[0]) else s[0]] + rest;
      assert forall k :: 1 <= k < |s| ==> IsWordStart(s, k, afterWord) == IsWordStart(s[1..], k - 1, IsWordChar(s[0]));
      r
  }

  /** `formatStatus`: the first `_` becomes a space, then every word starts with a capital. */
  function FormatStatus(status: string): (r: string)
    ensures |r| == |status|
  {
    UpperWordStarts(ReplaceFirst(status, '_', ' '), false)
  }

  /** Formatting changes letter case, and the first underscore, and nothing else. */
  lemma FormatOnlyRecases(status: string)
    ensures Text.ToLower(FormatStatus(status)) == Text.ToLower(ReplaceFirst(status, '_', ' '))
  {
    var t := ReplaceFirst(status, '_', ' ');
    forall k | 0 <= k < |t| ensures Text.ToLower(FormatStatus(status))[k] == Text.ToLower(t)[k] {
      assert Text.LowerChar(Text.UpperChar(t[k])) == Text.LowerChar(t[k]);
    }
  }

  /** Replacing the first underscore by a space loses nothing on strings without spaces. */
  lemma ReplaceFirstInjective(a: string, b: string)
    requires ' ' !in a && ' ' !in b
    requires ReplaceFirst(a, '_', ' ') == ReplaceFirst(b, '_', ' ')
    ensures a == b
  {
    var ra := ReplaceFirst(a, '_', ' ');
    var i, j := Text.IndexOf(a, '_'), Text.IndexOf(b, '_');
    assert Text.IndexOf(ra, ' ') == i by {
      if i < |a| {
        assert ra[i] == ' ';
      }
      assert forall k :: 0 <= k < i ==> ra[k] == a[k];
    }
    assert Text.IndexOf(ra, ' ') == j by {
      if j < |b| {
        assert ra[j] == ' ';
      }
      assert forall k :: 0 <= k < j ==> ra[k] == b[k];
    }
    if i < |a| {
      assert a == ra[i := '_'];
      assert b == ra[j := '_'];
    }
  }

  /** Distinct lower-case values without spaces (every wire value) are formatted differently. */
  lemma FormatStatusInjective(a: string, b: string)
    requires Text.ToLower(a) == a && ' ' !in a
    requires Text.ToLower(b) == b && ' ' !in b
    requires FormatStatus(a) == FormatStatus(b)
    ensures a == b
  {
    FormatOnlyRecases(a);
    FormatOnlyRecases(b);
    LowerReplaced(a);
    LowerReplaced(b);
    ReplaceFirstInjective(a, b);
  }

  lemma LowerReplaced(s: string)
    requires Text.ToLower(s) == s
    ensures Text.ToLower(ReplaceFirst(s, '_', ' ')) == ReplaceFirst(s, '_', ' ')
  {
    var t := ReplaceFirst(s, '_', ' ');
    forall k | 0 <= k < |t| ensures Text.ToLower(t)[k] == t[k] {
      if k != Text.IndexOf(s, '_') {
        assert Text.ToLower(s)[k] == s[k];
      }
    }
  }

  /** A string of lower-case ASCII letters, such as each word of a wire value. */
  predicate IsLowerWord(w: string) {
    w != [] && forall k :: 0 <= k < |w| ==> 'a' <= w[k] <= 'z'
  }

  /** A word starting with a capital. */
  function Capitalized(w: string): string
    requires w != []
  {
    [Text.UpperChar(w[0])] + w[1..]
  }

  /** A one-word value, e.g. `waiting`, is shown capitalised: `Waiting`. */
  lemma FormatOneWord(w: string)
    requires IsLowerWord(w)
    ensures FormatStatus(w) == Capitalized(w)
  {
    assert ReplaceFirst(w, '_', ' ') == w;
  }

  /** A two-word value, e.g. `not_available`, is shown as two capitalised words: `Not Available`. */
  lemma FormatTwoWords(a: string, b: string)
    requires IsLowerWord(a) && IsLowerWord(b)
    ensures FormatStatus(a + "_" + b) == Capitalized(a) + " " + Capitalized(b)
  {
    var s := a + "_" + b;
    assert Text.IndexOf(s, '_') == |a| by {
      assert s[|a|] == '_';
      assert forall k :: 0 <= k < |a| ==> s[k] == a[k];
    }
    var t := ReplaceFirst(s, '_', ' ');
    assert t == a + " " + b;
    var r := FormatStatus(s);
    var e := Capitalized(a) + " " + Capitalized(b);
    assert |r| == |e|;
    forall k | 0 <= k < |r| ensures r[k] == e[k] {
      if k < |a| {
        assert t[k] == a[k];
      } else if k > |a| {
        assert t[k] == b[k - |a| - 1];
      }
    }
  }

  /**
   * On every axis, distinct values get distinct labels in the table: the
   * values of one axis differ in length, and formatting keeps the length.
   */
  lemma WireLabelsDistinct(j1: Job, j2: Job)
    ensures j1.applied != j2.applied ==> FormatStatus(AppliedWire(j1.applied)) != FormatStatus(AppliedWire(j2.applied))
    ensures j1.openingType != j2.openingType ==>
      FormatStatus(OpeningWire(j1.openingType)) != FormatStatus(OpeningWire(j2.openingType))
    ensures j1.referral != j2.referral ==>
      FormatStatus(ReferralWire(j1.referral)) != FormatStatus(ReferralWire(j2.referral))
    ensures j1.shortlisted != j2.shortlisted ==>
      FormatStatus(ShortlistedWire(j1.shortlisted)) != FormatStatus(ShortlistedWire(j2.shortlisted))
    ensures j1.interviews != j2.interviews ==>
      FormatStatus(InterviewsWire(j1.interviews)) != FormatStatus(InterviewsWire(j2.interviews))
    ensures j1.selected != j2.selected ==>
      FormatStatus(SelectedWire(j1.selected)) != FormatStatus(SelectedWire(j2.selected))
  {
    DistinctLengths(AppliedWire(j1.applied), AppliedWire(j2.applied));
    DistinctLengths(OpeningWire(j1.openingType), OpeningWire(j2.openingType));
    DistinctLengths(ReferralWire(j1.referral), ReferralWire(j2.referral));
    DistinctLengths(ShortlistedWire(j1.shortlisted), ShortlistedWire(j2.shortlisted));
    DistinctLengths(InterviewsWire(j1.interviews), InterviewsWire(j2.interviews));
    DistinctLengths(SelectedWire(j1.selected), SelectedWire(j2.selected));
  }

  lemma DistinctLengths(a: string, b: string)
    ensures |a| != |b| ==> FormatStatus(a) != FormatStatus(b)
  {
    if |a| != |b| {
      assert |FormatStatus(a)| == |a|;
    }
  }
}
