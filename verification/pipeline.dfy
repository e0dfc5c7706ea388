/** The orchestrator `process_candidates`
    (employee_recruiter_agent.py:519-636): input validation, then phase 1
    screens every resume and divides the candidates at the minimum score, then
    phase 2 books an interview and an invitation for each selected candidate
    and records the outcome on the first report row with that candidate's
    address. */
module Pipeline {
  import opened Wrappers
  import opened Text
  import opened Patterns
  import opened Records
  import opened Screening
  import opened Scheduling
  import opened Invitation

  const NoPathsError: string := "No candidate resume files provided"
  const NoJobError: string := "No job description provided"

  /** What phase 2 receives for one selected candidate: the scheduler's reply,
      the random draws its fallback would use, the email writer's reply, and
      whether the sending agent answers. */
  datatype InterviewReplies = InterviewReplies(
    schedule: Reply<ScheduledCall>,
    draw: SlotDraw,
    draft: Reply<EmailContent>,
    sent: bool)

  /** Everything outside the program's own logic: the PDF extractor (empty
      text is a failure), the screening agent's reply for the i-th path, the
      phase-2 replies for the i-th selected candidate, and the calendar. */
  datatype Environment = Environment(
    extract: string -> string,
    screening: nat -> Reply<ScreeningResult>,
    interviews: nat -> InterviewReplies,
    clock: nat -> string)

  /** The dictionary `process_candidates` returns. */
  datatype Report = Report(
    all: seq<ScreeningResult>,
    selected: seq<ScreeningResult>,
    results: seq<CandidateResult>,
    contents: map<string, EmailContent>,
    error: Option<string>)

  // ---------------------------------------------------------------------
  // Reference definitions

  /** The successful outcomes, in order. */
  function Somes<T>(xs: seq<Option<T>>): (r: seq<T>)
    ensures |r| <= |xs|
  {
    if |xs| == 0 then []
    else
      var init := Somes(xs[..|xs| - 1]);
      match xs[|xs| - 1]
      case None => init
      case Some(x) => init + [x]
  }

  /** The candidates scoring at least `minScore`, in order. */
  function Passing(xs: seq<ScreeningResult>, minScore: real): (r: seq<ScreeningResult>)
    ensures |r| <= |xs|
  {
    if |xs| == 0 then []
    else
      var init := Passing(xs[..|xs| - 1], minScore);
      if xs[|xs| - 1].score >= minScore then init + [xs[|xs| - 1]] else init
  }

  /** `Passing` keeps exactly the candidates at or above the minimum. */
  lemma {:induction false} PassingMembers(xs: seq<ScreeningResult>, minScore: real)
    ensures forall x :: x in Passing(xs, minScore) <==> x in xs && x.score >= minScore
    decreases |xs|
  {
    if |xs| > 0 {
      var init := xs[..|xs| - 1];
      PassingMembers(init, minScore);
      assert xs == init + [xs[|xs| - 1]];
    }
  }

  /** The screening outcome of each of the first `n` paths, as `screen_candidate`
      would produce it with a sound cache. */
  function Outcomes(paths: seq<string>, n: nat, env: Environment): (r: seq<Option<ScreeningResult>>)
    requires n <= |paths|
    ensures |r| == n
    ensures forall i :: 0 <= i < n ==> r[i] == ScreenText(env.extract(paths[i]), env.screening(i))
  {
    seq(n, i requires 0 <= i < n => ScreenText(env.extract(paths[i]), env.screening(i)))
  }

  // ---------------------------------------------------------------------
  // Phase 1: screening

  /** The report row for a screened candidate (employee_recruiter_agent.py:574-580). */
  function RowOf(sr: ScreeningResult, minScore: real): (row: CandidateResult)
    ensures Identity(row) == (sr.name, sr.email, sr.score, sr.feedback)
    ensures row.status == Rejected <==> sr.score < minScore
    ensures row.status == Selected <==> sr.score >= minScore
    ensures row.interviewTime.None? && row.meetingUrl.None? && row.emailSubject.None?
  {
    CandidateResult(sr.name, sr.email, sr.score, sr.feedback,
                    if sr.score < minScore then Rejected else Selected, None, None, None)
  }

  /** The collections phase 1 builds, and the resume cache. */
  datatype Roster = Roster(
    all: seq<ScreeningResult>,
    selected: seq<ScreeningResult>,
    results: seq<CandidateResult>,
    cache: map<string, string>)

  /** One iteration of the screening loop (employee_recruiter_agent.py:569-590):
      a failed screen adds nothing, a successful one adds one candidate, one
      row, and the candidate to the selected list when the score reaches the
      minimum. */
  function ScreenStep(st: Roster, path: string, reply: Reply<ScreeningResult>,
                      extract: string -> string, minScore: real): (r: Roster)
    ensures var sc := ScreenCandidate(path, extract, st.cache, reply);
            r.cache == sc.cache
            && (sc.result.None? ==> r.all == st.all && r.selected == st.selected && r.results == st.results)
            && (sc.result.Some? ==>
                  var sr := sc.result.value;
                  r.all == st.all + [sr]
                  && r.results == st.results + [RowOf(sr, minScore)]
                  && r.selected == st.selected + (if sr.score >= minScore then [sr] else []))
  {
    var sc := ScreenCandidate(path, extract, st.cache, reply);
    match sc.result
    case None => st.(cache := sc.cache)
    case Some(sr) =>
      Roster(st.all + [sr],
             if sr.score >= minScore then st.selected + [sr] else st.selected,
             st.results + [RowOf(sr, minScore)],
             sc.cache)
  }

  /** Phase 1 over the first `n` paths, starting from an empty cache. */
  function ScreenAll(paths: seq<string>, n: nat, minScore: real, env: Environment): (r: Roster)
    requires n <= |paths|
    ensures CacheSound(r.cache, env.extract)
    ensures r.all == Somes(Outcomes(paths, n, env))
    ensures |r.results| == |r.all| <= n
    ensures forall k :: 0 <= k < |r.results| ==> r.results[k] == RowOf(r.all[k], minScore)
    ensures r.selected == Passing(r.all, minScore)
  {
    if n == 0 then Roster([], [], [], map[])
    else
      var st := ScreenAll(paths, n - 1, minScore, env);
      var r := ScreenStep(st, paths[n - 1], env.screening(n - 1), env.extract, minScore);
      assert Outcomes(paths, n, env)[..n - 1] == Outcomes(paths, n - 1, env);
      r
  }

  // ---------------------------------------------------------------------
  // Phase 2: interviews and invitations

  /** A booked interview and, when the invitation step succeeded, its email. */
  datatype Booking = Booking(call: ScheduledCall, email: Option<EmailContent>)

  /** Scheduling and then inviting one selected candidate
      (employee_recruiter_agent.py:603-607): no booking when scheduling
      fails, and then the invitation step is never reached. */
  function AttemptFor(candidate: ScreeningResult, replies: InterviewReplies, clock: nat -> string): (r: Option<Booking>)
    ensures r.None? <==> replies.schedule.Failed? || replies.schedule == Raw("")
    ensures r.Some? ==> r.value.call == ScheduleInterview(candidate, replies.schedule, replies.draw, clock).value
    ensures r.Some? ==>
              (r.value.email.Some? <==>
                 (replies.draft.Structured? && replies.sent) || (replies.draft.Raw? && replies.draft.text != ""))
    ensures r.Some? ==> r.value.email == SendInvitation(candidate, r.value.call, replies.draft, replies.sent)
  {
    match ScheduleInterview(candidate, replies.schedule, replies.draw, clock)
    case None => None
    case Some(call) => Some(Booking(call, SendInvitation(candidate, call, replies.draft, replies.sent)))
  }

  /** The attempt for each selected candidate, in order. */
  function Attempts(selected: seq<ScreeningResult>, env: Environment): (r: seq<Option<Booking>>)
    ensures |r| == |selected|
    ensures forall i :: 0 <= i < |selected| ==> r[i] == AttemptFor(selected[i], env.interviews(i), env.clock)
  {
    seq(|selected|, i requires 0 <= i < |selected| => AttemptFor(selected[i], env.interviews(i), env.clock))
  }

  /** The first report row with the given address. */
  function FirstWithEmail(rows: seq<CandidateResult>, email: string): (r: Option<nat>)
    ensures r.Some? ==> r.value < |rows| && rows[r.value].email == email
    ensures r.Some? ==> forall k :: 0 <= k < r.value ==> rows[k].email != email
    ensures r.None? <==> forall k :: 0 <= k < |rows| ==> rows[k].email != email
  {
    if |rows| == 0 then None
    else if rows[0].email == email then Some(0)
    else
      match FirstWithEmail(rows[1..], email)
      case None => None
      case Some(k) => Some(k + 1)
  }

  /** A row once its interview is booked (employee_recruiter_agent.py:612-621):
      time and link are set; with an email the status is "email_sent" and
      the subject recorded, without one the status is "scheduled" and the
      subject left as it was. */
  function Booked(row: CandidateResult, b: Booking): (r: CandidateResult)
    ensures Identity(r) == Identity(row)
    ensures r.interviewTime == Some(b.call.callTime) && r.meetingUrl == Some(b.call.url)
    ensures b.email.Some? ==> r.status == EmailSent && r.emailSubject == Some(b.email.value.subject)
    ensures b.email.None? ==> r.status == Scheduled && r.emailSubject == row.emailSubject
  {
    var timed := row.(interviewTime := Some(b.call.callTime), meetingUrl := Some(b.call.url));
    match b.email
    case Some(e) => timed.(emailSubject := Some(e.subject), status := EmailSent)
    case None => timed.(status := Scheduled)
  }

  /** The report rows and the email contents phase 2 updates. */
  datatype Ledger = Ledger(results: seq<CandidateResult>, contents: map<string, EmailContent>)

  /** One iteration of the interview loop (employee_recruiter_agent.py:600-622):
      only the first row carrying the candidate's address can change, and
      only when an interview was booked; the contents gain at most the entry
      for that address. */
  function InterviewOne(st: Ledger, candidate: ScreeningResult, attempt: Option<Booking>): (r: Ledger)
    ensures |r.results| == |st.results|
    ensures forall k :: 0 <= k < |st.results| ==> Identity(r.results[k]) == Identity(st.results[k])
    ensures forall k :: 0 <= k < |st.results| && r.results[k] != st.results[k] ==>
              attempt.Some? && FirstWithEmail(st.results, candidate.email) == Some(k)
    ensures attempt.Some? && FirstWithEmail(st.results, candidate.email).Some? ==>
              var k := FirstWithEmail(st.results, candidate.email).value;
              r.results[k] == Booked(st.results[k], attempt.value)
    ensures forall e :: e in r.contents && e != candidate.email ==> e in st.contents && r.contents[e] == st.contents[e]
    ensures forall e :: e in st.contents ==> e in r.contents
    ensures candidate.email in r.contents && candidate.email !in st.contents ==>
              attempt.Some? && attempt.value.email.Some? && FirstWithEmail(st.results, candidate.email).Some?
    ensures attempt.Some? && attempt.value.email.Some? && FirstWithEmail(st.results, candidate.email).Some? ==>
              candidate.email in r.contents && r.contents[candidate.email] == attempt.value.email.value
    ensures !(attempt.Some? && attempt.value.email.Some? && FirstWithEmail(st.results, candidate.email).Some?) ==>
              r.contents == st.contents
  {
    match attempt
    case None => st
    case Some(b) =>
      match FirstWithEmail(st.results, candidate.email)
      case None => st
      case Some(k) =>
        var contents := if b.email.Some? then st.contents[candidate.email := b.email.value] else st.contents;
        Ledger(st.results[k := Booked(st.results[k], b)], contents)
  }

  /** Phase 2 over the first `n` selected candidates, starting from the rows
      phase 1 built and no email contents. */
  function InterviewAll(results: seq<CandidateResult>, selected: seq<ScreeningResult>,
                        attempts: seq<Option<Booking>>, n: nat): (r: Ledger)
    requires |attempts| == |selected| && n <= |selected|
    ensures |r.results| == |results|
    ensures forall k :: 0 <= k < |results| ==> Identity(r.results[k]) == Identity(results[k])
    ensures forall e :: e in r.contents ==> exists i :: 0 <= i < n && selected[i].email == e
  {
    if n == 0 then Ledger(results, map[])
    else
      var prev := InterviewAll(results, selected, attempts, n - 1);
      InterviewOne(prev, selected[n - 1], attempts[n - 1])
  }

  // ---------------------------------------------------------------------
  // Phase 2 when addresses are distinct

  /** No two report rows share an address. */
  predicate DistinctRows(rows: seq<CandidateResult>) {
    forall j, k :: 0 <= j < k < |rows| ==> rows[j].email != rows[k].email
  }

  /** No two candidates share an address. */
  predicate DistinctCandidates(cands: seq<ScreeningResult>) {
    forall j, k :: 0 <= j < k < |cands| ==> cands[j].email != cands[k].email
  }

  /** The first candidate with the given address. */
  function EmailIndex(cands: seq<ScreeningResult>, email: string): (r: Option<nat>)
    ensures r.Some? ==> r.value < |cands| && cands[r.value].email == email
    ensures r.Some? ==> forall i :: 0 <= i < r.value ==> cands[i].email != email
    ensures r.None? <==> forall i :: 0 <= i < |cands| ==> cands[i].email != email
  {
    if |cands| == 0 then None
    else if cands[0].email == email then Some(0)
    else
      match EmailIndex(cands[1..], email)
      case None => None
      case Some(i) => Some(i + 1)
  }

  /** A row after an attempt: unchanged when nothing was booked. */
  function Apply(row: CandidateResult, attempt: Option<Booking>): CandidateResult {
    match attempt
    case None => row
    case Some(b) => Booked(row, b)
  }

  /** The row phase 2 should leave: booked by the attempt of the candidate
      with the row's address, if there is one. */
  function Expected(row: CandidateResult, selected: seq<ScreeningResult>, attempts: seq<Option<Booking>>): CandidateResult
    requires |attempts| == |selected|
  {
    match EmailIndex(selected, row.email)
    case None => row
    case Some(i) => Apply(row, attempts[i])
  }

  /** The candidate's invitation is stored: booked, with an email, and some
      row carries the address. */
  predicate Invites(results: seq<CandidateResult>, candidate: ScreeningResult, attempt: Option<Booking>) {
    attempt.Some? && attempt.value.email.Some? && FirstWithEmail(results, candidate.email).Some?
  }

  /** The first row with an address depends only on the rows' addresses. */
  lemma FirstWithEmailByEmails(a: seq<CandidateResult>, b: seq<CandidateResult>, email: string)
    requires |a| == |b| && forall k :: 0 <= k < |a| ==> a[k].email == b[k].email
    ensures FirstWithEmail(a, email) == FirstWithEmail(b, email)
  {
    var x, y := FirstWithEmail(a, email), FirstWithEmail(b, email);
    if x.Some? && y.Some? {
      assert !(x.value < y.value) && !(y.value < x.value);
    }
  }

  /** Looking one candidate further: the earlier match stands, else the new
      candidate matches or nothing does. */
  lemma EmailIndexExtend(cands: seq<ScreeningResult>, n: nat, email: string)
    requires n < |cands|
    ensures EmailIndex(cands[..n + 1], email)
            == if EmailIndex(cands[..n], email).Some? then EmailIndex(cands[..n], email)
               else if cands[n].email == email then Some(n) else None
  {
    var x, y := EmailIndex(cands[..n + 1], email), EmailIndex(cands[..n], email);
    if y.Some? {
      assert cands[..n + 1][y.value] == cands[..n][y.value];
      if x.Some? {
        assert !(x.value < y.value) && !(y.value < x.value);
      }
    } else if cands[n].email == email {
      assert cands[..n + 1][n] == cands[n];
    }
  }

  /** The row carrying the candidate's address, the only one with it, takes
      the candidate's attempt. */
  lemma StepOwnRow(prev: Ledger, results: seq<CandidateResult>, k: nat, c: ScreeningResult, a: Option<Booking>)
    requires |prev.results| == |results| && k < |results|
    requires forall j :: 0 <= j < |results| ==> prev.results[j].email == results[j].email
    requires DistinctRows(results) && results[k].email == c.email
    ensures InterviewOne(prev, c, a).results[k] == Apply(prev.results[k], a)
  {
    FirstWithEmailByEmails(prev.results, results, c.email);
    var f := FirstWithEmail(results, c.email);
    assert f.Some? && !(f.value < k) && !(k < f.value);
  }

  /** A row with another address is left alone. */
  lemma StepOtherRow(prev: Ledger, c: ScreeningResult, a: Option<Booking>, k: nat)
    requires k < |prev.results| && prev.results[k].email != c.email
    ensures InterviewOne(prev, c, a).results[k] == prev.results[k]
  {
  }

  /** No earlier candidate has the address of the last one. */
  lemma LastAddressNew(selected: seq<ScreeningResult>, n: nat)
    requires 0 < n <= |selected| && DistinctCandidates(selected)
    ensures EmailIndex(selected[..n - 1], selected[n - 1].email).None?
  {
    var before := selected[..n - 1];
    forall i | 0 <= i < |before| ensures before[i].email != selected[n - 1].email {
      assert before[i] == selected[i];
    }
  }

  /** One more iteration keeps each row at its expected value. */
  lemma InterviewStepRow(results: seq<CandidateResult>, selected: seq<ScreeningResult>,
                         attempts: seq<Option<Booking>>, n: nat, k: nat)
    requires |attempts| == |selected| && 0 < n <= |selected| && k < |results|
    requires DistinctRows(results) && DistinctCandidates(selected)
    requires InterviewAll(results, selected, attempts, n - 1).results[k]
             == Expected(results[k], selected[..n - 1], attempts[..n - 1])
    ensures InterviewAll(results, selected, attempts, n).results[k]
            == Expected(results[k], selected[..n], attempts[..n])
  {
    var prev := InterviewAll(results, selected, attempts, n - 1);
    var c := selected[n - 1];
    var e := results[k].email;
    assert InterviewAll(results, selected, attempts, n) == InterviewOne(prev, c, attempts[n - 1]);
    EmailIndexExtend(selected, n - 1, e);
    assert prev.results[k].email == e;
    if e == c.email {
      LastAddressNew(selected, n);
      StepOwnRow(prev, results, k, c, attempts[n - 1]);
      assert attempts[..n][n - 1] == attempts[n - 1];
    } else {
      StepOtherRow(prev, c, attempts[n - 1], k);
      match EmailIndex(selected[..n - 1], e)
      case None =>
      case Some(i) =>
        assert attempts[..n][i] == attempts[..n - 1][i];
    }
  }

  /** Phase 2 with distinct addresses (employee_recruiter_agent.py:597-622):
      every row ends as its expected value, whatever the other candidates'
      attempts. */
  lemma {:induction false} InterviewAllRows(results: seq<CandidateResult>, selected: seq<ScreeningResult>,
                                            attempts: seq<Option<Booking>>, n: nat)
    requires |attempts| == |selected| && n <= |selected|
    requires DistinctRows(results) && DistinctCandidates(selected)
    ensures var r := InterviewAll(results, selected, attempts, n);
            forall k :: 0 <= k < |results| ==> r.results[k] == Expected(results[k], selected[..n], attempts[..n])
  {
    if n > 0 {
      InterviewAllRows(results, selected, attempts, n - 1);
      forall k | 0 <= k < |results|
        ensures InterviewAll(results, selected, attempts, n).results[k]
                == Expected(results[k], selected[..n], attempts[..n])
      {
        InterviewStepRow(results, selected, attempts, n, k);
      }
    }
  }

  /** `InterviewAllRows` for the whole loop. */
  lemma InterviewAllRowsWhole(results: seq<CandidateResult>, selected: seq<ScreeningResult>,
                              attempts: seq<Option<Booking>>)
    requires |attempts| == |selected|
    requires DistinctRows(results) && DistinctCandidates(selected)
    ensures var r := InterviewAll(results, selected, attempts, |selected|);
            forall k :: 0 <= k < |results| ==> r.results[k] == Expected(results[k], selected, attempts)
  {
    var n := |selected|;
    InterviewAllRows(results, selected, attempts, n);
    assert selected[..n] == selected;
    assert attempts[..n] == attempts;
  }

  /** One more iteration stores the new candidate's invitation exactly when
      it is due and leaves the earlier candidates' entries alone. */
  lemma InterviewStepContents(results: seq<CandidateResult>, selected: seq<ScreeningResult>,
                              attempts: seq<Option<Booking>>, n: nat, i: nat)
    requires |attempts| == |selected| && 0 < n <= |selected| && i < n
    requires DistinctCandidates(selected)
    requires var prev := InterviewAll(results, selected, attempts, n - 1);
             i < n - 1 ==>
               (selected[i].email in prev.contents <==> Invites(results, selected[i], attempts[i]))
               && (selected[i].email in prev.contents ==> prev.contents[selected[i].email] == attempts[i].value.email.value)
    ensures var r := InterviewAll(results, selected, attempts, n);
            (selected[i].email in r.contents <==> Invites(results, selected[i], attempts[i]))
            && (selected[i].email in r.contents ==> r.contents[selected[i].email] == attempts[i].value.email.value)
  {
    var prev := InterviewAll(results, selected, attempts, n - 1);
    var c := selected[n - 1];
    assert InterviewAll(results, selected, attempts, n) == InterviewOne(prev, c, attempts[n - 1]);
    if i < n - 1 {
      assert selected[i].email != c.email;
      StepKeepsEntry(prev, c, attempts[n - 1], selected[i].email);
    } else {
      NotYetStored(results, selected, attempts, n);
      StepNewEntry(prev, results, c, attempts[n - 1]);
    }
  }

  /** An entry under another address is neither added nor changed. */
  lemma StepKeepsEntry(prev: Ledger, c: ScreeningResult, a: Option<Booking>, e: string)
    requires e != c.email
    ensures var r := InterviewOne(prev, c, a);
            (e in r.contents <==> e in prev.contents) && (e in r.contents ==> r.contents[e] == prev.contents[e])
  {
  }

  /** The entry under the candidate's own address is its invitation, when
      there is one and a row to book. */
  lemma StepNewEntry(prev: Ledger, results: seq<CandidateResult>, c: ScreeningResult, a: Option<Booking>)
    requires |prev.results| == |results|
    requires forall j :: 0 <= j < |results| ==> prev.results[j].email == results[j].email
    requires c.email !in prev.contents
    ensures var r := InterviewOne(prev, c, a);
            (c.email in r.contents <==> Invites(results, c, a))
            && (c.email in r.contents ==> r.contents[c.email] == a.value.email.value)
  {
    FirstWithEmailByEmails(prev.results, results, c.email);
  }

  /** Before its own iteration, no entry carries a candidate's address. */
  lemma NotYetStored(results: seq<CandidateResult>, selected: seq<ScreeningResult>,
                     attempts: seq<Option<Booking>>, n: nat)
    requires |attempts| == |selected| && 0 < n <= |selected|
    requires DistinctCandidates(selected)
    ensures selected[n - 1].email !in InterviewAll(results, selected, attempts, n - 1).contents
  {
    var prev := InterviewAll(results, selected, attempts, n - 1);
    forall e | e in prev.contents ensures e != selected[n - 1].email {
      var j :| 0 <= j < n - 1 && selected[j].email == e;
    }
  }

  /** Phase 2 with distinct addresses (employee_recruiter_agent.py:612-619):
      a selected candidate's address is a key of the email contents exactly
      when the invitation is stored, and the value is that email. */
  lemma {:induction false} InterviewAllContents(results: seq<CandidateResult>, selected: seq<ScreeningResult>,
                                                attempts: seq<Option<Booking>>, n: nat)
    requires |attempts| == |selected| && n <= |selected|
    requires DistinctCandidates(selected)
    ensures var r := InterviewAll(results, selected, attempts, n);
            forall i :: 0 <= i < n ==>
              (selected[i].email in r.contents <==> Invites(results, selected[i], attempts[i]))
              && (selected[i].email in r.contents ==> r.contents[selected[i].email] == attempts[i].value.email.value)
  {
    if n > 0 {
      InterviewAllContents(results, selected, attempts, n - 1);
      forall i | 0 <= i < n
        ensures var r := InterviewAll(results, selected, attempts, n);
                (selected[i].email in r.contents <==> Invites(results, selected[i], attempts[i]))
                && (selected[i].email in r.contents ==> r.contents[selected[i].email] == attempts[i].value.email.value)
      {
        InterviewStepContents(results, selected, attempts, n, i);
      }
    }
  }

  // ---------------------------------------------------------------------
  // The whole pipeline

  /** The minimum score when the caller gives none. */
  const DefaultMinScore: real := 5.0

  /** `process_candidates`: an empty path list and then an empty job
      description are refused before anything is screened; otherwise phase 1
      and phase 2 run in turn. */
  function ProcessCandidates(paths: seq<string>, jobDescription: string, minScore: real, env: Environment): (r: Report)
    ensures |paths| == 0 ==> r == Report([], [], [], map[], Some(NoPathsError))
    ensures |paths| > 0 && jobDescription == "" ==> r == Report([], [], [], map[], Some(NoJobError))
    ensures r.error.None? <==> |paths| > 0 && jobDescription != ""
    ensures r.error.None? ==> r.all == Somes(Outcomes(paths, |paths|, env))
    ensures |r.results| == |r.all| <= |paths|
    ensures r.selected == Passing(r.all, minScore)
    ensures forall k :: 0 <= k < |r.results| ==> Identity(r.results[k]) == Identity(RowOf(r.all[k], minScore))
    ensures forall e :: e in r.contents ==> exists i :: 0 <= i < |r.selected| && r.selected[i].email == e
  {
    if |paths| == 0 then Report([], [], [], map[], Some(NoPathsError))
    else if jobDescription == "" then Report([], [], [], map[], Some(NoJobError))
    else
      var roster := ScreenAll(paths, |paths|, minScore, env);
      var ledger := InterviewAll(roster.results, roster.selected, Attempts(roster.selected, env), |roster.selected|);
      Report(roster.all, roster.selected, ledger.results, ledger.contents, None)
  }

  /** Refused input gives the same report whatever the environment would
      have answered: nothing is screened. */
  lemma RefusedInputScreensNothing(paths: seq<string>, jobDescription: string, minScore: real,
                                   env1: Environment, env2: Environment)
    requires |paths| == 0 || jobDescription == ""
    ensures ProcessCandidates(paths, jobDescription, minScore, env1)
            == ProcessCandidates(paths, jobDescription, minScore, env2)
  {
  }

  /** Filtering keeps addresses distinct. */
  lemma {:induction false} PassingDistinct(xs: seq<ScreeningResult>, minScore: real)
    requires DistinctCandidates(xs)
    ensures DistinctCandidates(Passing(xs, minScore))
    decreases |xs|
  {
    if |xs| > 0 {
      var init, x := xs[..|xs| - 1], xs[|xs| - 1];
      PassingDistinct(init, minScore);
      PassingMembers(init, minScore);
      var p := Passing(init, minScore);
      forall j | 0 <= j < |p| ensures p[j].email != x.email {
        assert p[j] in init;
        var m :| 0 <= m < |init| && init[m] == p[j];
        assert xs[m] == init[m];
      }
    }
  }

  /** The row of a candidate below the minimum is never touched, and the row
      of one at or above it ends as that candidate's own attempt left it. */
  lemma RowAfterPhases(all: seq<ScreeningResult>, minScore: real, k: nat)
    requires DistinctCandidates(all) && k < |all|
    ensures var selected := Passing(all, minScore);
            var row := RowOf(all[k], minScore);
            (all[k].score < minScore ==> EmailIndex(selected, row.email).None?)
            && (all[k].score >= minScore ==>
                  EmailIndex(selected, row.email).Some?
                  && selected[EmailIndex(selected, row.email).value] == all[k])
  {
    var selected := Passing(all, minScore);
    PassingMembers(all, minScore);
    var e := all[k].email;
    match EmailIndex(selected, e)
    case Some(i) =>
      assert selected[i] in all;
      var m :| 0 <= m < |all| && all[m] == selected[i];
      assert m == k;
    case None =>
      if all[k].score >= minScore {
        assert all[k] in selected;
      }
  }

  /** `results` are the rows phase 1 builds for the candidates `all`. */
  predicate RowsOf(all: seq<ScreeningResult>, results: seq<CandidateResult>, minScore: real) {
    |results| == |all| && forall k :: 0 <= k < |all| ==> results[k] == RowOf(all[k], minScore)
  }

  /** Rows built from distinct candidates have distinct addresses. */
  lemma RowsKeepAddresses(all: seq<ScreeningResult>, results: seq<CandidateResult>, minScore: real)
    requires RowsOf(all, results, minScore)
    requires DistinctCandidates(all)
    ensures DistinctRows(results)
  {
  }

  /** A selected candidate has a row with its address. */
  lemma SelectedHasRow(all: seq<ScreeningResult>, results: seq<CandidateResult>, minScore: real, i: nat)
    requires RowsOf(all, results, minScore)
    requires i < |Passing(all, minScore)|
    ensures FirstWithEmail(results, Passing(all, minScore)[i].email).Some?
  {
    var selected := Passing(all, minScore);
    PassingMembers(all, minScore);
    assert selected[i] in all;
    var m :| 0 <= m < |all| && all[m] == selected[i];
    assert results[m].email == selected[i].email;
  }

  /** Phase 2 run on the rows phase 1 built for distinct candidates: each row
      ends as its candidate's own attempt made it. */
  lemma PhaseTwoRows(all: seq<ScreeningResult>, results: seq<CandidateResult>, minScore: real,
                     attempts: seq<Option<Booking>>)
    requires RowsOf(all, results, minScore)
    requires DistinctCandidates(all) && |attempts| == |Passing(all, minScore)|
    ensures var selected := Passing(all, minScore);
            var ledger := InterviewAll(results, selected, attempts, |selected|);
            forall k :: 0 <= k < |results| ==> ledger.results[k] == Expected(results[k], selected, attempts)
  {
    RowsKeepAddresses(all, results, minScore);
    PassingDistinct(all, minScore);
    InterviewAllRowsWhole(results, Passing(all, minScore), attempts);
  }

  /** Phase 2 run on the rows phase 1 built for distinct candidates: each
      selected candidate has a contents entry exactly when its invitation
      exists, and the entry is that invitation. */
  lemma PhaseTwoContents(all: seq<ScreeningResult>, results: seq<CandidateResult>, minScore: real,
                         attempts: seq<Option<Booking>>)
    requires RowsOf(all, results, minScore)
    requires DistinctCandidates(all) && |attempts| == |Passing(all, minScore)|
    ensures var selected := Passing(all, minScore);
            var ledger := InterviewAll(results, selected, attempts, |selected|);
            forall i :: 0 <= i < |selected| ==>
              (selected[i].email in ledger.contents <==> attempts[i].Some? && attempts[i].value.email.Some?)
              && (selected[i].email in ledger.contents ==> ledger.contents[selected[i].email] == attempts[i].value.email.value)
  {
    var selected := Passing(all, minScore);
    var n := |selected|;
    PassingDistinct(all, minScore);
    InterviewAllContents(results, selected, attempts, n);
    forall i | 0 <= i < n ensures FirstWithEmail(results, selected[i].email).Some? {
      SelectedHasRow(all, results, minScore, i);
    }
  }

  /** The email contents hold an entry for a selected candidate exactly when
      that candidate was booked with an invitation, the entry is that
      invitation, and there is no other entry. */
  predicate StoredExactly(selected: seq<ScreeningResult>, attempts: seq<Option<Booking>>,
                          contents: map<string, EmailContent>)
    requires |attempts| == |selected|
  {
    (forall i :: 0 <= i < |selected| ==>
       (selected[i].email in contents <==> attempts[i].Some? && attempts[i].value.email.Some?)
       && (selected[i].email in contents ==> contents[selected[i].email] == attempts[i].value.email.value))
    && (forall e :: e in contents ==> exists i :: 0 <= i < |selected| && selected[i].email == e)
  }

  /** With distinct addresses the report is exactly what each candidate's own
      attempt makes of its row, and a selected candidate has an entry in the
      email contents exactly when it was booked and its invitation produced. */
  lemma ReportExact(paths: seq<string>, jobDescription: string, minScore: real, env: Environment)
    requires |paths| > 0 && jobDescription != ""
    requires DistinctCandidates(Somes(Outcomes(paths, |paths|, env)))
    ensures var r := ProcessCandidates(paths, jobDescription, minScore, env);
            var attempts := Attempts(r.selected, env);
            forall k :: 0 <= k < |r.results| ==>
              r.results[k] == Expected(RowOf(r.all[k], minScore), r.selected, attempts)
    ensures var r := ProcessCandidates(paths, jobDescription, minScore, env);
            StoredExactly(r.selected, Attempts(r.selected, env), r.contents)
  {
    var roster := ScreenAll(paths, |paths|, minScore, env);
    var attempts := Attempts(roster.selected, env);
    PhaseTwoRows(roster.all, roster.results, minScore, attempts);
    PhaseTwoContents(roster.all, roster.results, minScore, attempts);
  }

  /** The life of one report row for candidate `sr`: "rejected" exactly
      when the score is below the minimum and then never touched; otherwise
      it only moves forward from "selected"; "email_sent" exactly when the
      email contents hold its address, with the subject of that email; an
      interview time exactly when it was scheduled. */
  predicate RowLifecycle(sr: ScreeningResult, minScore: real, row: CandidateResult,
                         contents: map<string, EmailContent>) {
    (row.status == Rejected <==> sr.score < minScore)
    && (sr.score < minScore ==> row == RowOf(sr, minScore))
    && Advances(RowOf(sr, minScore).status, row.status)
    && (row.status == EmailSent <==> row.email in contents)
    && (row.status == EmailSent ==> row.emailSubject == Some(contents[row.email].subject))
    && (row.interviewTime.Some? <==> row.status == Scheduled || row.status == EmailSent)
  }

  /** The state machine of every report row, with distinct addresses
      (employee_recruiter_agent.py:574-622). */
  lemma ReportRowStatus(paths: seq<string>, jobDescription: string, minScore: real, env: Environment)
    requires |paths| > 0 && jobDescription != ""
    requires DistinctCandidates(Somes(Outcomes(paths, |paths|, env)))
    ensures var r := ProcessCandidates(paths, jobDescription, minScore, env);
            forall k :: 0 <= k < |r.results| ==> RowLifecycle(r.all[k], minScore, r.results[k], r.contents)
  {
    var r := ProcessCandidates(paths, jobDescription, minScore, env);
    ReportExact(paths, jobDescription, minScore, env);
    forall k | 0 <= k < |r.results|
      ensures RowLifecycle(r.all[k], minScore, r.results[k], r.contents)
    {
      ExpectedRowStatus(r.all, minScore, Attempts(r.selected, env), r.results[k], r.contents, k);
    }
  }

  /** The status argument for one row, given what phase 2 leaves. */
  lemma ExpectedRowStatus(all: seq<ScreeningResult>, minScore: real, attempts: seq<Option<Booking>>,
                          row: CandidateResult, contents: map<string, EmailContent>, k: nat)
    requires DistinctCandidates(all) && k < |all| && |attempts| == |Passing(all, minScore)|
    requires row == Expected(RowOf(all[k], minScore), Passing(all, minScore), attempts)
    requires StoredExactly(Passing(all, minScore), attempts, contents)
    ensures RowLifecycle(all[k], minScore, row, contents)
  {
    var selected := Passing(all, minScore);
    var e := all[k].email;
    RowAfterPhases(all, minScore, k);
    match EmailIndex(selected, e)
    case None =>
    case Some(i) =>
      assert selected[i] == all[k];
  }

  // ---------------------------------------------------------------------
  // Single-candidate runs

  /** Phase 1 on one resume whose text is extracted and screened. */
  lemma OnePathScreened(path: string, minScore: real, env: Environment)
    requires env.extract(path) != "" && env.screening(0).Structured?
    ensures var sr := env.screening(0).value;
            var roster := ScreenAll([path], 1, minScore, env);
            roster.all == [sr] && roster.results == [RowOf(sr, minScore)]
            && roster.selected == (if sr.score >= minScore then [sr] else [])
  {
    assert ScreenAll([path], 0, minScore, env).cache == map[];
  }

  /** Phase 2 on one row and its own booking. */
  lemma OneBooking(sr: ScreeningResult, minScore: real, b: Booking)
    ensures InterviewAll([RowOf(sr, minScore)], [sr], [Some(b)], 1)
            == Ledger([Booked(RowOf(sr, minScore), b)],
                      if b.email.Some? then map[sr.email := b.email.value] else map[])
  {
    assert FirstWithEmail([RowOf(sr, minScore)], sr.email) == Some(0);
  }

  /** One resume whose screening scores at least the minimum, with every
      later step succeeding, ends "email_sent", and the email contents hold
      exactly that candidate's address, with the drafted email. */
  lemma OneCandidateInvited(path: string, jobDescription: string, minScore: real, env: Environment)
    requires jobDescription != "" && env.extract(path) != ""
    requires env.screening(0).Structured? && env.screening(0).value.score >= minScore
    requires env.interviews(0).schedule.Structured?
    requires env.interviews(0).draft.Structured? && env.interviews(0).sent
    ensures var r := ProcessCandidates([path], jobDescription, minScore, env);
            var sr := env.screening(0).value;
            r.all == [sr] && r.selected == [sr] && |r.results| == 1
            && r.results[0].status == EmailSent
            && r.contents == map[sr.email := env.interviews(0).draft.value]
  {
    var sr := env.screening(0).value;
    OnePathScreened(path, minScore, env);
    var b := Booking(env.interviews(0).schedule.value, Some(env.interviews(0).draft.value));
    assert Attempts([sr], env) == [Some(b)];
    OneBooking(sr, minScore, b);
  }

  /** One resume scoring below the minimum is "rejected", nobody is selected
      and no email is stored. */
  lemma OneCandidateRejected(path: string, jobDescription: string, minScore: real, env: Environment)
    requires jobDescription != "" && env.extract(path) != ""
    requires env.screening(0).Structured? && env.screening(0).value.score < minScore
    ensures var r := ProcessCandidates([path], jobDescription, minScore, env);
            var sr := env.screening(0).value;
            r.all == [sr] && r.selected == [] && |r.results| == 1
            && r.results[0].status == Rejected && r.contents == map[]
  {
    OnePathScreened(path, minScore, env);
  }

  /** A textual reply that shows no score keeps the default 5.0, which is
      exactly the default minimum: such a candidate is selected. */
  lemma UnscoredReplySelected(text: string)
    requires forall j :: 0 <= j < |ScorePatterns| ==> Search(ScorePatterns[j], Lower(text)).None?
    ensures FallbackScreening(text).score == DefaultMinScore
    ensures RowOf(FallbackScreening(text), DefaultMinScore).status == Selected
  {
  }

  // ---------------------------------------------------------------------
  // Shared addresses

  /** Rows are matched by address alone: when a rejected candidate shares the
      address of a selected one listed after it, the booking lands on the
      rejected row and the selected row stays "selected". */
  lemma SharedAddressBooksRejectedRow(rejected: ScreeningResult, chosen: ScreeningResult, minScore: real, b: Booking)
    requires rejected.email == chosen.email
    requires rejected.score < minScore <= chosen.score
    ensures var rows := [RowOf(rejected, minScore), RowOf(chosen, minScore)];
            var r := InterviewOne(Ledger(rows, map[]), chosen, Some(b));
            r.results[0] == Booked(rows[0], b) && r.results[0].status != Rejected
            && r.results[1] == rows[1] && r.results[1].status == Selected
  {
    var rows := [RowOf(rejected, minScore), RowOf(chosen, minScore)];
    assert FirstWithEmail(rows, chosen.email) == Some(0);
  }

  /** Two selected candidates with one address update the same row in turn:
      an "email_sent" row falls back to "scheduled" when the second
      candidate's invitation fails, while the contents keep the first
      candidate's email under that address. */
  lemma SharedAddressRegresses(first: ScreeningResult, second: ScreeningResult, minScore: real,
                               call1: ScheduledCall, email1: EmailContent, call2: ScheduledCall)
    requires first.email == second.email && first.score >= minScore && second.score >= minScore
    ensures var rows := [RowOf(first, minScore), RowOf(second, minScore)];
            var attempts := [Some(Booking(call1, Some(email1))), Some(Booking(call2, None))];
            var mid := InterviewAll(rows, [first, second], attempts, 1);
            var r := InterviewAll(rows, [first, second], attempts, 2);
            mid.results[0].status == EmailSent
            && r.results[0].status == Scheduled && r.results[1].status == Selected
            && first.email in r.contents && r.contents[first.email] == email1
  {
    var rows := [RowOf(first, minScore), RowOf(second, minScore)];
    var attempts := [Some(Booking(call1, Some(email1))), Some(Booking(call2, None))];
    assert FirstWithEmail(rows, first.email) == Some(0);
    var mid := InterviewAll(rows, [first, second], attempts, 1);
    assert FirstWithEmail(mid.results, second.email) == Some(0);
  }
}
