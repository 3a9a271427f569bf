/**
 * The job-application record: who applied where and how far each of the
 * independent status axes has got. Every axis is a closed set of values;
 * the store does not constrain their combinations, so every combination
 * is a possible record.
 */
module Jobs {
  import opened Wrappers

  datatype Applied = Yes | No
  datatype OpeningType = Public | Internal
  datatype Referral = Yes | No | NotAvailable
  datatype Shortlisted = Yes | No | Waiting
  datatype Interviews = Waiting | InProcess | Done | NotSelected
  datatype Selected = Offer | No | Waiting

  /** A job application; `date` is the application date as an ISO `yyyy-MM-dd` string. */
  datatype Job = Job(
    jobId: string,
    company: string,
    role: string,
    date: string,
    applied: Applied,
    openingType: OpeningType,
    referral: Referral,
    shortlisted: Shortlisted,
    interviews: Interviews,
    selected: Selected,
    companyLogo: Option<string>)

  // The values as they travel on the wire and reach the display helpers.

  function AppliedWire(v: Applied): string {
    match v case Yes => "yes" case No => "no"
  }

  function OpeningWire(v: OpeningType): string {
    match v case Public => "public" case Internal => "internal"
  }

  function ReferralWire(v: Referral): string {
    match v case Yes => "yes" case No => "no" case NotAvailable => "not_available"
  }

  function ShortlistedWire(v: Shortlisted): string {
    match v case Yes => "yes" case No => "no" case Waiting => "waiting"
  }

  function InterviewsWire(v: Interviews): string {
    match v
    case Waiting => "waiting"
    case InProcess => "in_process"
    case Done => "done"
    case NotSelected => "not_selected"
  }

  function SelectedWire(v: Selected): string {
    match v case Offer => "offer" case No => "no" case Waiting => "waiting"
  }
}
