# Employee recruiter: a verified model of the recruitment pipeline

This project models the deterministic core of the employee recruiter agent
(`employee_recruiter_agent/employee_recruiter_agent.py`) in Dafny. The core
screens a batch of resumes against a job description, keeps the candidates
whose score reaches a minimum, books an interview for each of them, and sends
each one an invitation. Every call to a language-model agent is an oracle
input. Such an input yields the structured record that was asked for
(`Structured`), some other content, taken as text (`Raw`), or nothing
(`Failed`: no response, empty content, or an exception). What the program
itself decides is modelled exactly:

- the fallback parsers that rebuild a record from a textual reply: the
  screening fallback (name, email, score, feedback), the made-up interview
  slot, and the invitation subject and body;
- the status of each report row: `rejected` or `selected` after screening,
  then possibly `scheduled` or `email_sent`;
- the orchestrator `process_candidates`: input validation, phase 1
  (screening, with the resume cache) and phase 2 (scheduling and inviting,
  correlated with report rows by first-match on the email address).

Modules, in dependency order:

| file | module | contents |
|---|---|---|
| wrappers.dfy | `Wrappers` | `Option` |
| text.dfy | `Text` | the Python string operations the code uses: `lower`, `strip`, `split`, `str.replace`, `in`, `split(':', 1)[1]`, decimal rendering and parsing |
| numerals.dfy | `Numerals` | `float()` on the numerals the score patterns capture, as exact reals |
| patterns.dfy | `Patterns` | hand-written scanners for the five regular expressions, each proved sound and complete against a description of the pattern's language and of the match Python's backtracking engine prefers; `re.search` as the leftmost such match |
| records.dfy | `Records` | `ScreeningResult`, `ScheduledCall`, `EmailContent`, `CandidateResult`, the four statuses, agent replies |
| screening.dfy | `Screening` | `screen_candidate`: cache, reply handling, the textual fallback |
| scheduling.dfy | `Scheduling` | `schedule_interview` and its made-up slot |
| invitation.dfy | `Invitation` | `send_interview_invitation`, the fallback subject and body |
| pipeline.dfy | `Pipeline` | `process_candidates`, phase 1 and phase 2, and the properties of the report |

The environment of one run is a value of type `Pipeline.Environment`. It
holds the PDF extractor (a total function where empty text means failure),
the screening agent's reply for the i-th path, and the phase-2 replies for
the i-th selected candidate. Those replies are the scheduler's reply, the
random draws its fallback would use, the email writer's reply, and whether
the sending agent answers. The environment also holds a rendering of the
date a given number of days ahead.

Two behaviours of the code as written are worth knowing. Both are modelled
as written:

- Phase 2 finds the report row to update by the candidate's email address,
  taking the first row with that address. When two screened candidates share
  an address, the booking of the later one can land on an earlier row. That
  row can even be a `rejected` one, which then gains an interview time and a
  new status (`Pipeline.SharedAddressBooksRejectedRow`). An `email_sent` row
  can also fall back to `scheduled` when the second candidate's invitation
  fails, while the email contents keep the first candidate's email
  (`Pipeline.SharedAddressRegresses`). The status machine and the
  key/status link of the email contents are therefore proved for reports
  whose candidates have distinct addresses (`Pipeline.ReportRowStatus`).
- When the email writer answers with text, the fallback builds an email and
  returns it without ever calling the sending agent. The row still becomes
  `email_sent` (`Invitation.FallbackNeverSent`).

## Model

| member | source | states |
|---|---|---|
| Records.StatusNameRoundTrip | employee_recruiter_agent/employee_recruiter_agent.py:66 | the four status strings are distinct: each reads back as its own status |
| Screening.LineMarkerInText | employee_recruiter_agent/employee_recruiter_agent.py:336-339 | a line containing "name:" (any case) makes the whole text contain it, so the whole-text pre-check never hides a matching line |
| Screening.FallbackNameUnknown | employee_recruiter_agent/employee_recruiter_agent.py:335-341 | when no line of the text contains "name:" in any case, the recovered name is "Unknown Candidate" |
| Screening.FallbackNameFirstLine | employee_recruiter_agent/employee_recruiter_agent.py:336-341 | otherwise the name is the stripped text after the first colon of the first line containing "name:", whichever colon that is |
| Screening.FallbackNameShape | employee_recruiter_agent/employee_recruiter_agent.py:340 | a recovered name lies on one line and has no white space at either end |
| Screening.PlaceholderEmail | employee_recruiter_agent/employee_recruiter_agent.py:345 | the made-up address is the name with each space turned into '.' and each character lower-cased, character by character, followed by "@example.com"; it holds no space and no upper-case letter |
| Screening.UnknownPlaceholder | employee_recruiter_agent/employee_recruiter_agent.py:345 | for "Unknown Candidate" the made-up address is "unknown.candidate@example.com" |
| Screening.FallbackEmail | employee_recruiter_agent/employee_recruiter_agent.py:344-345 | the first address `re.search` finds, which contains an '@', and the made-up address when there is none |
| Patterns.SearchCorrect | employee_recruiter_agent/employee_recruiter_agent.py:344 | `re.search` returns a match of the pattern at the leftmost index where it matches at all, the one the engine prefers there; it returns nothing only when the pattern matches nowhere |
| Patterns.EmailAtComplete | employee_recruiter_agent/employee_recruiter_agent.py:344 | every address match `[\w\.-]+@[\w\.-]+\.\w+` at an index is found there, and the one returned is at least as long |
| Patterns.LabelledAtComplete | employee_recruiter_agent/employee_recruiter_agent.py:350-352 | every match of `score[:\s]+(\d+\.?\d*)` or `rating[:\s]+(\d+\.?\d*)` at an index is found there, with the longest numeral |
| Patterns.OutOfTenAtComplete | employee_recruiter_agent/employee_recruiter_agent.py:351 | every match of `(\d+\.?\d*)/10` at an index is found there |
| Patterns.SubjectAtComplete | employee_recruiter_agent/employee_recruiter_agent.py:484 | every match of `subject[:\s]+(.*?)[\n\r]` at an index is found there, and the one returned has the longest separator run and then the shortest group |
| Screening.ScoreCaptureIsNumeral | employee_recruiter_agent/employee_recruiter_agent.py:350-358 | the group a score pattern captures is a numeral `\d+\.?\d*`, so `float` never fails on it |
| Numerals.NumeralValueOfInteger | employee_recruiter_agent/employee_recruiter_agent.py:358 | a numeral without a fraction reads as the integer it spells |
| Numerals.NumeralValueOfFraction | employee_recruiter_agent/employee_recruiter_agent.py:358 | a numeral with a dot reads as the integer before the dot plus the digits after it over ten to the number of those digits |
| Numerals.EightAndAHalf | employee_recruiter_agent/employee_recruiter_agent.py:358 | "8.5" reads as 8.5 |
| Screening.Normalize | employee_recruiter_agent/employee_recruiter_agent.py:359-360 | a value above 10 becomes a tenth of itself and a value up to 10 is kept, so the result is never above the value and is at most 10 exactly when the value is at most 100 |
| Screening.FirstFound | employee_recruiter_agent/employee_recruiter_agent.py:355-361 | the patterns are tried in order and the first one that matches decides; none before it matched |
| Screening.FallbackScore | employee_recruiter_agent/employee_recruiter_agent.py:348-363 | 5.0 when no pattern matches the lower-cased text; otherwise the value v of the first matching pattern's group, divided by ten when v is above 10 and kept as is otherwise; never negative |
| Screening.ScoreAboveTenScaled | employee_recruiter_agent/employee_recruiter_agent.py:355-360 | "Score: 85" gives 8.5 |
| Screening.FallbackFeedback | employee_recruiter_agent/employee_recruiter_agent.py:366 | the feedback is a prefix of the text of length min(length, 1000) |
| Screening.NoCluesDefaults | employee_recruiter_agent/employee_recruiter_agent.py:335-375 | a textual reply with no name line, no address and no score gives "Unknown Candidate", "unknown.candidate@example.com" and 5.0 |
| Screening.ScreenText | employee_recruiter_agent/employee_recruiter_agent.py:318-375 | no result exactly when the resume text is empty or the reply is missing or empty; a structured reply is taken as is, and text goes through the fallback |
| Screening.ScreenCandidate | employee_recruiter_agent/employee_recruiter_agent.py:293-302 | a failed extraction is neither cached nor screened; a cached path reuses its text; a cache that agrees with the extractor keeps agreeing, and the result is then that of screening the extracted text |
| Scheduling.MeetingUrl | employee_recruiter_agent/employee_recruiter_agent.py:416-417 | the link is "https://zoom.us/j/" followed by exactly nine digits, the first not zero |
| Scheduling.MeetingUrlRoundTrip | employee_recruiter_agent/employee_recruiter_agent.py:417 | the link gives back its meeting number, so different numbers give different links |
| Scheduling.CallTimeFields | employee_recruiter_agent/employee_recruiter_agent.py:415-422 | the call time is the date, a space, the hour as two digits, then ":00 IST" |
| Scheduling.FallbackSchedule | employee_recruiter_agent/employee_recruiter_agent.py:413-424 | name and email are copied; the call time is the date, a space, two digits reading as the drawn hour in 10..17, then ":00 IST"; the meeting number in the link is the drawn one, in 100000000..999999999 |
| Scheduling.ScheduleInterview | employee_recruiter_agent/employee_recruiter_agent.py:400-424 | no slot exactly when the reply is missing or empty; a structured slot is taken as is; text gives the made-up slot |
| Scheduling.RawTextIgnored | employee_recruiter_agent/employee_recruiter_agent.py:408-424 | what a textual reply says does not matter: any two give the same slot |
| Invitation.FallbackSubject | employee_recruiter_agent/employee_recruiter_agent.py:480-486 | the default subject when the subject pattern matches nowhere, otherwise the stripped group of the leftmost match; always one line without edge white space |
| Invitation.SubjectFound | employee_recruiter_agent/employee_recruiter_agent.py:484-486 | "Subject: Hello\nBody" gives "Hello" |
| Invitation.EmptySubjectLine | employee_recruiter_agent/employee_recruiter_agent.py:484-486 | "Subject:\n" gives the empty subject, not the default |
| Invitation.TemplateBody | employee_recruiter_agent/employee_recruiter_agent.py:492-508 | the template letter is longer than 50 characters and holds the name, the call time and the link at their places, and ends with the signature |
| Invitation.FallbackBody | employee_recruiter_agent/employee_recruiter_agent.py:489-510 | text longer than 50 characters is the body verbatim, otherwise the template letter; the body is always longer than 50 characters |
| Invitation.SendInvitation | employee_recruiter_agent/employee_recruiter_agent.py:450-512 | an email exactly when a structured draft was sent or the draft is non-empty text; the email is the draft, or the fallback subject and body |
| Invitation.FallbackNeverSent | employee_recruiter_agent/employee_recruiter_agent.py:476-512 | with a textual draft the outcome does not depend on whether the sending agent would answer |
| Pipeline.RowOf | employee_recruiter_agent/employee_recruiter_agent.py:574-580 | a new row copies the candidate's name, email, score and feedback, is "rejected" exactly when the score is below the minimum, otherwise "selected", and has no interview or subject |
| Pipeline.PassingMembers | employee_recruiter_agent/employee_recruiter_agent.py:582-583 | the selected candidates are exactly the screened ones at or above the minimum |
| Pipeline.ScreenStep | employee_recruiter_agent/employee_recruiter_agent.py:569-590 | a failed screen adds nothing; a successful one appends the candidate, its row, and the candidate to the selected list when the score reaches the minimum |
| Pipeline.ScreenAll | employee_recruiter_agent/employee_recruiter_agent.py:566-590 | after phase 1 the candidates are the successful outcomes in path order, one row each with the matching status, at most one per path, the selected list is the in-order passing subsequence, and the cache agrees with the extractor |
| Pipeline.AttemptFor | employee_recruiter_agent/employee_recruiter_agent.py:603-607 | no booking exactly when scheduling fails, and the invitation step runs only after a booking; the booking carries the scheduled slot and the outcome of the invitation step for that slot |
| Pipeline.FirstWithEmail | employee_recruiter_agent/employee_recruiter_agent.py:608-609 | the first row with the address, no earlier row having it; none only when no row has it |
| Pipeline.Booked | employee_recruiter_agent/employee_recruiter_agent.py:610-621 | a booked row keeps its identity and gains time and link; it becomes "email_sent" with the subject when there is an email, else "scheduled" |
| Pipeline.InterviewOne | employee_recruiter_agent/employee_recruiter_agent.py:600-622 | one phase-2 iteration changes at most the first row with the candidate's address, and only after a booking; the email contents change only by storing the new invitation under that address, and stay as they were when no invitation is stored |
| Pipeline.InterviewAll | employee_recruiter_agent/employee_recruiter_agent.py:597-622 | phase 2 keeps the number and identity of the rows, and every address in the email contents belongs to a selected candidate |
| Pipeline.InterviewAllRows | employee_recruiter_agent/employee_recruiter_agent.py:597-622 | with distinct addresses each row ends as the attempt of the selected candidate with its address left it, or unchanged when there is none |
| Pipeline.InterviewAllContents | employee_recruiter_agent/employee_recruiter_agent.py:612-619 | with distinct addresses a selected candidate's address is in the email contents exactly when it was booked, its invitation exists and a row carries the address; the entry is that invitation |
| Pipeline.ProcessCandidates | employee_recruiter_agent/employee_recruiter_agent.py:519-636 | an empty path list gives the empty report with its error, before an empty job description gives its own; no error exactly on valid input; otherwise the candidates are the successful screens, with one row each and the selected list the passing ones |
| Pipeline.RefusedInputScreensNothing | employee_recruiter_agent/employee_recruiter_agent.py:533-551 | refused input gives the same report whatever every agent would have answered: nothing is screened |
| Pipeline.ReportExact | employee_recruiter_agent/employee_recruiter_agent.py:566-636 | with distinct addresses every row is what its own candidate's attempt made of it, and the email contents hold exactly the selected candidates' invitations |
| Pipeline.ReportRowStatus | employee_recruiter_agent/employee_recruiter_agent.py:574-622 | with distinct addresses every row is "rejected" exactly when its score is below the minimum, and is then untouched; otherwise it only moves forward; it is "email_sent" exactly when its address is in the email contents, with that email's subject; it has an interview time exactly when scheduled or emailed |
| Pipeline.OneCandidateInvited | employee_recruiter_agent/employee_recruiter_agent.py:566-636 | a single candidate at or above the minimum, with every step answering, ends "email_sent" and is the only entry of the email contents |
| Pipeline.OneCandidateRejected | employee_recruiter_agent/employee_recruiter_agent.py:566-636 | a single candidate below the minimum ends "rejected", with nobody selected and no email stored |
| Pipeline.UnscoredReplySelected | employee_recruiter_agent/employee_recruiter_agent.py:522 | the default minimum 5.0 equals the score a textual reply without any score keeps, so such a candidate is selected at the default minimum |
| Pipeline.SharedAddressBooksRejectedRow | employee_recruiter_agent/employee_recruiter_agent.py:608-621 | a booking for a selected candidate lands on an earlier rejected row with the same address, and the candidate's own row stays "selected" |
| Pipeline.SharedAddressRegresses | employee_recruiter_agent/employee_recruiter_agent.py:608-621 | two selected candidates with one address, each with its own row as phase 1 builds them: both updates land on the first row, whose "email_sent" falls back to "scheduled", the second row stays "selected", and the email contents keep the first email |
| Text.Strip | employee_recruiter_agent/employee_recruiter_agent.py:486 | `strip()` returns a slice of the input with only white space before and after it, and no white space at its own ends |
| Text.SplitJoin | employee_recruiter_agent/employee_recruiter_agent.py:337 | splitting the join of pieces that hold no separator gives the pieces back, so `split` cuts exactly at the separators |

## Left out

- PDF text extraction and file I/O (`extract_text_from_pdf`). The extractor is a parameter of the environment, and empty text stands for failure.
- The agents: their construction, model configuration, prompts, and the `arun` calls. Each reply is an oracle input, and an exception is a failed reply. The prompts carry the job description, so the job description only matters for input validation here.
- Content that is neither the expected record nor text is not distinguished from text: `str(content)` is not modelled.
- The simulated tools (`simulate_zoom_scheduling`, `simulate_email_sending`), which only the agents call.
- `datetime.now()`, calendar arithmetic and the `%Y-%m-%d` part of `strftime`. The date some days ahead is a function in the environment; the hour, minutes and time zone of the call time are modelled.
- `random.randint`: the three draws of the fallback slot are inputs restricted to their ranges (subset types).
- Python's full regular-expression engine. The five patterns used are scanned by hand. `\w`, `\d`, `\s`, `lower()` and `strip()` are restricted to ASCII, and Unicode case folding is not modelled.
- Floating point: scores are real numbers, and `float()` of a numeral is its exact decimal value. Since every captured group is a numeral, the `except` branch of the score loop cannot be taken and is not modelled.
- Logging, `async`/`await`, and traceback output.
- The Streamlit application and the sample-resume generator.
- Pipeline.ReportRowStatus: the status machine and the link between `email_sent` and the email contents are proved only for reports whose candidates have distinct email addresses, because with shared addresses the code as written breaks both (see `Pipeline.SharedAddressRegresses`).
- Pipeline.ReportExact: characterises rows and contents exactly only for distinct addresses, for the same reason.
