/** The records the recruitment pipeline passes between its steps
    (employee_recruiter_agent.py:38-69), and the shape of an agent's reply. */
module Records {
  import opened Wrappers

  /** The screening agent's verdict on one resume. */
  datatype ScreeningResult = ScreeningResult(name: string, email: string, score: real, feedback: string)

  /** An interview slot: a human-readable time and a meeting link. */
  datatype ScheduledCall = ScheduledCall(name: string, email: string, callTime: string, url: string)

  datatype EmailContent = EmailContent(subject: string, body: string)

  /** The four status strings a report row can carry. */
  datatype Status = Rejected | Selected | Scheduled | EmailSent

  /** One row of the final report. */
  datatype CandidateResult = CandidateResult(
    name: string,
    email: string,
    score: real,
    feedback: string,
    status: Status,
    interviewTime: Option<string>,
    meetingUrl: Option<string>,
    emailSubject: Option<string>)

  /** What one agent call yields: the structured record the agent was asked
      for, some other (raw, textual) content, or nothing at all (no response,
      empty content, or an exception). */
  datatype Reply<T> = Structured(value: T) | Raw(text: string) | Failed

  /** The string the report stores for a status. */
  function StatusName(s: Status): string {
    match s
    case Rejected => "rejected"
    case Selected => "selected"
    case Scheduled => "scheduled"
    case EmailSent => "email_sent"
  }

  function ParseStatus(name: string): Option<Status> {
    if name == "rejected" then Some(Rejected)
    else if name == "selected" then Some(Selected)
    else if name == "scheduled" then Some(Scheduled)
    else if name == "email_sent" then Some(EmailSent)
    else None
  }

  /** The status strings are distinct: each reads back as its status. */
  lemma StatusNameRoundTrip(s: Status)
    ensures ParseStatus(StatusName(s)) == Some(s)
  {
  }

  /** A report row may move along selected -> scheduled -> email_sent and
      never leaves or enters rejected. */
  predicate Advances(before: Status, after: Status) {
    before == after
    || (before == Selected && (after == Scheduled || after == EmailSent))
    || (before == Scheduled && after == EmailSent)
  }

  /** The identity a report row keeps through every later step. */
  function Identity(r: CandidateResult): (string, string, real, string) {
    (r.name, r.email, r.score, r.feedback)
  }
}
