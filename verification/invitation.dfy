/** The invitation step `send_interview_invitation`
    (employee_recruiter_agent.py:433-516): a structured draft is handed to
    the sending agent and counts only if that agent answers; a draft that is
    text is turned into an email by the fallback below and is never sent. */
module Invitation {
  import opened Wrappers
  import opened Text
  import opened Patterns
  import opened Records

  /** "Interview Invitation - Backend Engineer Position", in words. */
  const DefaultSubject: string := "Interview " + "Invitation - " + "Backend " + "Engineer Position"

  /** Texts longer than this are used as the body verbatim. */
  const BodyThreshold: nat := 50

  // The fixed pieces of the template body, around the candidate's name, the
  // call time and the meeting link.
  const Salutation: string := "Dear "
  const BeforeTime: string :=
    ",\n\nCongratulations! We are excited to inform you that you have been selected to move forward in the hiring process.\n\nInterview Details:\n- Date & Time: "
  const BeforeUrl: string := "\n- Duration: 1 hour\n- Meeting Link: "
  const Closing: string :=
    "\n\nPlease confirm your availability for this time slot by replying to this email.\n\nWe look forward to speaking with you!\n\nBest regards,\nJohn Doe\nSenior Software Engineer\njohn@agno.com"

  // ---------------------------------------------------------------------
  // Subject

  /** One line with no white space at either end. */
  predicate TrimmedLine(s: string) {
    '\n' !in s && (s == [] || (!IsSpace(s[0]) && !IsSpace(s[|s| - 1])))
  }

  lemma DefaultSubjectTrimmed()
    ensures TrimmedLine(DefaultSubject)
  {
    assert DefaultSubject[0] == 'I';
    assert DefaultSubject[|DefaultSubject| - 1] == 'n';
  }

  /** A stripped group of a subject match is one trimmed line: the group
      holds no '\n' and stripping removes the edge white space. */
  lemma StrippedGroupTrimmed(text: string, m: Match)
    requires m.capture.start <= m.capture.end <= |text|
    requires SubjectSplit(text, m.start, m.capture.start, m.capture.end)
    ensures TrimmedLine(Strip(Captured(text, m)))
  {
    var group := Captured(text, m);
    assert '\n' !in group by {
      forall x | 0 <= x < |group| ensures group[x] != '\n' {
        assert group[x] == text[m.capture.start + x];
      }
    }
    if '\n' in Strip(group) {
      StripKeepsChars(group, '\n');
    }
  }

  /** The fallback subject (employee_recruiter_agent.py:480-486): the default,
      unless `subject[:\s]+(.*?)[\n\r]` (any case) matches, in which case
      the stripped group of the leftmost match. */
  function FallbackSubject(text: string): (subject: string)
    ensures Search(SubjectLine, text).None? ==> subject == DefaultSubject
    ensures Search(SubjectLine, text).Some? ==>
              var m := Search(SubjectLine, text).value;
              subject == Strip(text[m.capture.start..m.capture.end])
              && SubjectSplit(text, m.start, m.capture.start, m.capture.end)
    ensures TrimmedLine(subject)
  {
    match Search(SubjectLine, text)
    case None =>
      DefaultSubjectTrimmed();
      DefaultSubject
    case Some(m) =>
      SearchFound(SubjectLine, text);
      StrippedGroupTrimmed(text, m);
      Strip(Captured(text, m))
  }

  /** A subject line is found in a plain reply. */
  lemma SubjectFound()
    ensures FallbackSubject("Subject: Hello\nBody") == "Hello"
  {
    var s := "Subject: Hello\nBody";
    assert Lower(s[0..7]) == SubjectKeyword;
    assert RunEnd(s, 7, Separator) == 9;
    assert FirstBreakFrom(s, 9) == Some(14);
    assert SubjectAt(s, 0) == Some(Span(9, 14));
    assert Search(SubjectLine, s) == Some(Match(0, Span(9, 14)));
    assert s[9..14] == "Hello";
  }

  /** When the line break directly follows the separator the engine gives
      back separator characters and captures nothing: the subject is empty,
      not the default. */
  lemma EmptySubjectLine()
    ensures FallbackSubject("Subject:\n") == ""
  {
    var s := "Subject:\n";
    assert Lower(s[0..7]) == SubjectKeyword;
    assert RunEnd(s, 7, Separator) == 9;
    assert FirstBreakFrom(s, 9).None?;
    assert LastBreakIn(s, 8, 9) == Some(8);
    assert SubjectAt(s, 0) == Some(Span(8, 8));
    assert Search(SubjectLine, s) == Some(Match(0, Span(8, 8)));
  }

  // ---------------------------------------------------------------------
  // Body

  /** Where each of seven pieces sits in their concatenation. */
  lemma PiecesAt(a: string, b: string, c: string, d: string, e: string, f: string, g: string)
    ensures var s := a + b + c + d + e + f + g;
            OccursAt(s, a, 0) && OccursAt(s, b, |a|)
            && OccursAt(s, d, |a| + |b| + |c|)
            && OccursAt(s, f, |a| + |b| + |c| + |d| + |e|)
            && OccursAt(s, g, |s| - |g|)
  {
    var s := a + b + c + d + e + f + g;
    var t := |a| + |b| + |c|;
    var u := t + |d| + |e|;
    assert s[..|a|] == a;
    assert s[|a|..|a| + |b|] == b;
    assert s[t..t + |d|] == d;
    assert s[u..u + |f|] == f;
    assert s[|s| - |g|..] == g;
  }

  /** The template letter (employee_recruiter_agent.py:492-508). */
  function TemplateBody(name: string, callTime: string, url: string): (body: string)
    ensures |body| > BodyThreshold
    ensures OccursAt(body, Salutation, 0) && OccursAt(body, name, |Salutation|)
    ensures OccursAt(body, callTime, |Salutation| + |name| + |BeforeTime|)
    ensures OccursAt(body, url, |Salutation| + |name| + |BeforeTime| + |callTime| + |BeforeUrl|)
    ensures OccursAt(body, Closing, |body| - |Closing|)
  {
    PiecesAt(Salutation, name, BeforeTime, callTime, BeforeUrl, url, Closing);
    Salutation + name + BeforeTime + callTime + BeforeUrl + url + Closing
  }

  /** The fallback body (employee_recruiter_agent.py:489-510): the text itself
      when it is longer than 50 characters, else the template letter. */
  function FallbackBody(text: string, name: string, callTime: string, url: string): (body: string)
    ensures |text| > BodyThreshold ==> body == text
    ensures |text| <= BodyThreshold ==> body == TemplateBody(name, callTime, url)
    ensures |body| > BodyThreshold
  {
    if |text| > BodyThreshold then text else TemplateBody(name, callTime, url)
  }

  /** The email built from a draft that is text. */
  function FallbackDraft(text: string, candidate: ScreeningResult, call: ScheduledCall): (e: EmailContent)
    ensures e.subject == FallbackSubject(text)
    ensures e.body == FallbackBody(text, candidate.name, call.callTime, call.url)
  {
    EmailContent(FallbackSubject(text), FallbackBody(text, candidate.name, call.callTime, call.url))
  }

  // ---------------------------------------------------------------------
  // The step

  /** `send_interview_invitation`, with the writer's reply `draft` and whether
      the sending agent answered (`sent`; an exception is a `false`). */
  function SendInvitation(candidate: ScreeningResult, call: ScheduledCall,
                          draft: Reply<EmailContent>, sent: bool): (r: Option<EmailContent>)
    ensures r.Some? <==> (draft.Structured? && sent) || (draft.Raw? && draft.text != "")
    ensures draft.Structured? && sent ==> r == Some(draft.value)
    ensures draft.Raw? && draft.text != "" ==> r == Some(FallbackDraft(draft.text, candidate, call))
  {
    match draft
    case Structured(content) => if sent then Some(content) else None
    case Raw(text) => if text == "" then None else Some(FallbackDraft(text, candidate, call))
    case Failed => None
  }

  /** A draft that is text never reaches the sending agent: the outcome is the
      same whether that agent would have answered or not. */
  lemma FallbackNeverSent(candidate: ScreeningResult, call: ScheduledCall, text: string)
    ensures SendInvitation(candidate, call, Raw(text), true) == SendInvitation(candidate, call, Raw(text), false)
  {
  }
}
