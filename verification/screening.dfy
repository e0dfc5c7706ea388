/** The screening step `screen_candidate`
    (employee_recruiter_agent.py:288-381): the resume cache, the reply of the
    screening agent, and the fallback parser that recovers name, email, score
    and feedback from a reply that is text instead of a `ScreeningResult`. */
module Screening {
  import opened Wrappers
  import opened Text
  import opened Patterns
  import opened Records
  import opened Numerals

  const UnknownName: string := "Unknown Candidate"
  const NameMarker: string := "name:"
  const PlaceholderDomain: string := "@example.com"
  const DefaultScore: real := 5.0
  const FeedbackLimit: nat := 1000

  /** The score patterns, in the order they are tried. */
  const ScorePatterns: seq<Pattern> := [Labelled("score"), OutOfTen, Labelled("rating")]

  // ---------------------------------------------------------------------
  // Name

  /** The line mentions "name:" in any case (`"name:" in line.lower()`). */
  predicate MentionsName(line: string) {
    Contains(Lower(line), NameMarker)
  }

  /** The first line, from index `from` on, that mentions "name:". */
  function FirstNameLine(lines: seq<string>, from: nat): (r: Option<nat>)
    ensures r.Some? ==> from <= r.value < |lines| && MentionsName(lines[r.value])
    ensures r.Some? ==> forall k :: from <= k < r.value ==> !MentionsName(lines[k])
    ensures r.None? ==> forall k :: from <= k < |lines| ==> !MentionsName(lines[k])
    decreases |lines| - from
  {
    if from >= |lines| then None
    else if MentionsName(lines[from]) then Some(from)
    else FirstNameLine(lines, from + 1)
  }

  /** A line holding "name:" in any case holds a colon. */
  lemma MarkerLineHasColon(line: string)
    requires MentionsName(line)
    ensures ':' in line
  {
    var i := FindFrom(Lower(line), NameMarker, 0).value;
    assert Lower(line)[i + 4] == NameMarker[4];
    LowerKeepsNonLetter(line, i + 4, ':');
  }

  /** `line.split(':', 1)[1].strip()`. */
  function NameFromLine(line: string): string
    requires MentionsName(line)
  {
    MarkerLineHasColon(line);
    Strip(AfterFirst(line, ':'))
  }

  /** The fallback name (employee_recruiter_agent.py:335-341). */
  function FallbackName(text: string): string {
    if !MentionsName(text) then UnknownName
    else
      var lines := Split(text, '\n');
      match FirstNameLine(lines, 0)
      case None => UnknownName
      case Some(k) => NameFromLine(lines[k])
  }

  /** A slice that mentions "name:" makes the whole string mention it. */
  lemma SliceMentionsName(s: string, lo: nat, hi: nat)
    requires lo <= hi <= |s| && MentionsName(s[lo..hi])
    ensures MentionsName(s)
  {
    LowerSlice(s, lo, hi);
    var i := FindFrom(Lower(s[lo..hi]), NameMarker, 0).value;
    OccursInSlice(Lower(s), NameMarker, lo, hi, i);
    ContainsIff(Lower(s), NameMarker);
  }

  /** A piece of a join that mentions "name:" makes the join mention it. */
  lemma PieceMentionsName(parts: seq<string>, k: nat)
    requires k < |parts| && MentionsName(parts[k])
    ensures MentionsName(Join(parts, '\n'))
  {
    var joined := Join(parts, '\n');
    var off := PieceOccursInJoin(parts, '\n', k);
    assert OccursAt(joined, parts[k], off);
    var hi := off + |parts[k]|;
    assert joined[off..hi] == parts[k];
    SliceMentionsName(joined, off, hi);
  }

  /** A line of the text that contains the marker makes the text contain it,
      so the whole-text test never hides a matching line. */
  lemma LineMarkerInText(text: string, lines: seq<string>, k: nat)
    requires lines == Split(text, '\n')
    requires k < |lines| && MentionsName(lines[k])
    ensures MentionsName(text)
  {
    PieceMentionsName(lines, k);
  }

  /** No line mentions "name:" in any case: the name is "Unknown Candidate". */
  lemma FallbackNameUnknown(text: string)
    requires forall k :: 0 <= k < |Split(text, '\n')| ==> !MentionsName(Split(text, '\n')[k])
    ensures FallbackName(text) == UnknownName
  {
    var lines := Split(text, '\n');
    var r := FirstNameLine(lines, 0);
    assert r.None?;
  }

  /** Otherwise the name is the stripped text after the first colon of the
      first line that mentions it (the colon need not be the one of "name:"). */
  lemma FallbackNameFirstLine(text: string, k: nat)
    requires var lines := Split(text, '\n');
             k < |lines| && MentionsName(lines[k])
             && forall j :: 0 <= j < k ==> !MentionsName(lines[j])
    ensures FallbackName(text) == NameFromLine(Split(text, '\n')[k])
  {
    var lines := Split(text, '\n');
    LineMarkerInText(text, lines, k);
    assert FirstNameLine(lines, 0) == Some(k);
  }

  /** A recovered name is a stripped piece of one line: no line feed and no
      white space at either end. */
  lemma FallbackNameShape(text: string)
    ensures var n := FallbackName(text);
            '\n' !in n && (n == [] || (!IsSpace(n[0]) && !IsSpace(n[|n| - 1])))
  {
    var n := FallbackName(text);
    if n != UnknownName {
      var lines := Split(text, '\n');
      var k := FirstNameLine(lines, 0).value;
      MarkerLineHasColon(lines[k]);
      var rest := AfterFirst(lines[k], ':');
      assert '\n' !in rest;
      if '\n' in n { StripKeepsChars(rest, '\n'); }
    }
  }

  // ---------------------------------------------------------------------
  // Email

  /** The address made up when the reply shows none:
      `name.replace(' ', '.').lower() + "@example.com"`. */
  function PlaceholderEmail(name: string): (e: string)
    ensures |e| == |name| + |PlaceholderDomain|
    ensures e[|name|..] == PlaceholderDomain
    ensures forall i :: 0 <= i < |name| ==> e[i] == LowerChar(if name[i] == ' ' then '.' else name[i])
    ensures forall i :: 0 <= i < |name| ==> e[i] != ' ' && !IsUpper(e[i])
  {
    Lower(ReplaceChar(name, ' ', '.')) + PlaceholderDomain
  }

  /** Every reply without a name line and without an address gets the same
      made-up address. */
  lemma UnknownPlaceholder()
    ensures PlaceholderEmail(UnknownName) == "unknown.candidate@example.com"
  {
    var r := ReplaceChar(UnknownName, ' ', '.');
    assert r == "Unknown.Candidate";
    assert Lower(r) == "unknown.candidate";
  }

  /** The fallback email: the first address in the text, else the made-up one
      (employee_recruiter_agent.py:344-345). */
  function FallbackEmail(text: string, name: string): (e: string)
    ensures Search(EmailAddress, text).None? ==> e == PlaceholderEmail(name)
    ensures Search(EmailAddress, text).Some? ==>
              var m := Search(EmailAddress, text).value;
              e == text[m.start..m.capture.end] && '@' in e
  {
    match Search(EmailAddress, text)
    case Some(m) =>
      EmailFound(text);
      Captured(text, m)
    case None => PlaceholderEmail(name)
  }

  /** An address match starts at its group and holds an '@'. */
  lemma EmailMatchHasAt(text: string, i: nat, c: Span)
    requires MatchesAt(EmailAddress, text, i, c)
    ensures i == c.start <= c.end <= |text| && '@' in text[i..c.end]
  {
    var at, dot :| EmailSplit(text, i, at, dot, c.end);
    assert text[i..c.end][at - i] == '@';
  }

  /** An address found in the text starts where its group starts and holds
      an '@'. */
  lemma EmailFound(text: string)
    requires Search(EmailAddress, text).Some?
    ensures var m := Search(EmailAddress, text).value;
            m.start == m.capture.start && '@' in text[m.start..m.capture.end]
  {
    SearchFound(EmailAddress, text);
    var m := Search(EmailAddress, text).value;
    EmailMatchHasAt(text, m.start, m.capture);
  }

  // ---------------------------------------------------------------------
  // Score

  /** Scores above ten are divided by ten, once. */
  function Normalize(v: real): (r: real)
    requires v >= 0.0
    ensures 0.0 <= r <= v
    ensures r <= 10.0 <==> v <= 100.0
    ensures v <= 10.0 ==> r == v
    ensures v > 10.0 ==> r == v / 10.0
  {
    if v > 10.0 then v / 10.0 else v
  }

  /** What `re.search` gives for each score pattern on `s`. */
  function ScoreSearches(s: string): (found: seq<Option<Match>>)
    ensures |found| == |ScorePatterns|
    ensures forall j :: 0 <= j < |ScorePatterns| ==> found[j] == Search(ScorePatterns[j], s)
  {
    seq(|ScorePatterns|, j requires 0 <= j < |ScorePatterns| => Search(ScorePatterns[j], s))
  }

  /** The first successful search (from index `k`), with its index. */
  function FirstFound(found: seq<Option<Match>>, k: nat): (r: Option<(nat, Match)>)
    ensures r.Some? ==> k <= r.value.0 < |found| && found[r.value.0] == Some(r.value.1)
    ensures r.Some? ==> forall j :: k <= j < r.value.0 ==> found[j].None?
    ensures r.None? <==> forall j :: k <= j < |found| ==> found[j].None?
    decreases |found| - k
  {
    if k >= |found| then None
    else
      match found[k]
      case Some(m) => Some((k, m))
      case None => FirstFound(found, k + 1)
  }

  /** The fallback score (employee_recruiter_agent.py:348-363): the three
      patterns are tried in order on the lower-cased text, the first that
      matches decides, and 5.0 is kept when none does. */
  function FallbackScore(text: string): (score: real)
    ensures score >= 0.0
    ensures (forall j :: 0 <= j < |ScorePatterns| ==> Search(ScorePatterns[j], Lower(text)).None?)
            ==> score == DefaultScore
    ensures FirstFound(ScoreSearches(Lower(text)), 0).Some? ==>
              var m := FirstFound(ScoreSearches(Lower(text)), 0).value.1;
              var v := NumeralValue(Lower(text)[m.capture.start..m.capture.end]);
              score == Normalize(v) && (score <= 10.0 <==> v <= 100.0)
              && (v > 10.0 ==> score == v / 10.0) && (v <= 10.0 ==> score == v)
  {
    var lowered := Lower(text);
    match FirstFound(ScoreSearches(lowered), 0)
    case None => DefaultScore
    case Some((_, m)) => Normalize(NumeralValue(Captured(lowered, m)))
  }

  /** "Score: 85" reads as 85, which is above ten and so becomes 8.5. */
  lemma ScoreAboveTenScaled()
    ensures FallbackScore("Score: 85") == 8.5
  {
    var s := Lower("Score: 85");
    assert s == "score: 85";
    assert OccursAt(s, "score", 0) by { assert s[0..5] == "score"; }
    assert RunEnd(s, 5, Separator) == 7;
    assert NumeralEnd(s, 7) == 9;
    assert LabelledAt(s, "score", 0) == Some(Span(7, 9));
    assert Search(ScorePatterns[0], s) == Some(Match(0, Span(7, 9)));
    assert ScoreSearches(s)[0] == Some(Match(0, Span(7, 9)));
    assert s[7..9] == "85";
    assert DecimalValue("85") == 85;
    assert IndexOf("85", '.').None?;
  }

  /** The capture a score pattern returns is a numeral `\d+\.?\d*`. */
  lemma ScoreCaptureIsNumeral(s: string, k: nat)
    requires k < |ScorePatterns| && Search(ScorePatterns[k], s).Some?
    ensures var c := Search(ScorePatterns[k], s).value.capture;
            exists d :: NumeralSplit(s, c.start, d, c.end)
  {
    var m := Search(ScorePatterns[k], s).value;
    var c := m.capture;
    SearchFound(ScorePatterns[k], s);
    if k == 1 {
      var d :| NumeralSplit(s, m.start, d, c.end) && OccursAt(s, OutOfTenSuffix, c.end);
    } else {
      var d :| LabelledSplit(s, ScorePatterns[k].key, m.start, c.start, d, c.end);
    }
  }

  // ---------------------------------------------------------------------
  // Feedback and the whole fallback record

  /** `text[:1000]`. */
  function FallbackFeedback(text: string): (f: string)
    ensures f <= text
    ensures |f| == if |text| <= FeedbackLimit then |text| else FeedbackLimit
  {
    if |text| <= FeedbackLimit then text else text[..FeedbackLimit]
  }

  /** The record built from a textual reply. */
  function FallbackScreening(text: string): (r: ScreeningResult)
    ensures r.feedback <= text && |r.feedback| <= FeedbackLimit
    ensures r.score >= 0.0
  {
    var name := FallbackName(text);
    ScreeningResult(name, FallbackEmail(text, name), FallbackScore(text), FallbackFeedback(text))
  }

  /** A textual reply with no name line, no address and no score keeps every
      default: "Unknown Candidate", the made-up address and 5.0. */
  lemma NoCluesDefaults(text: string)
    requires forall k :: 0 <= k < |Split(text, '\n')| ==> !MentionsName(Split(text, '\n')[k])
    requires Search(EmailAddress, text).None?
    requires forall j :: 0 <= j < |ScorePatterns| ==> Search(ScorePatterns[j], Lower(text)).None?
    ensures FallbackScreening(text)
            == ScreeningResult(UnknownName, "unknown.candidate@example.com", DefaultScore, FallbackFeedback(text))
  {
    FallbackNameUnknown(text);
    UnknownPlaceholder();
  }

  // ---------------------------------------------------------------------
  // The step

  /** The outcome of screening a resume text that has been extracted: a
      structured reply is taken as is, non-empty text goes through the
      fallback parser, and anything else fails. */
  function ScreenText(resumeText: string, reply: Reply<ScreeningResult>): (r: Option<ScreeningResult>)
    ensures resumeText == "" ==> r.None?
    ensures r.None? <==> resumeText == "" || reply.Failed? || reply == Raw("")
    ensures resumeText != "" && reply.Structured? ==> r == Some(reply.value)
    ensures resumeText != "" && reply.Raw? && reply.text != "" ==> r == Some(FallbackScreening(reply.text))
  {
    if resumeText == "" then None
    else
      match reply
      case Structured(v) => Some(v)
      case Raw(t) => if t == "" then None else Some(FallbackScreening(t))
      case Failed => None
  }

  /** A cache whose entries are exactly what the extractor gives, never empty. */
  ghost predicate CacheSound(cache: map<string, string>, extract: string -> string) {
    forall p :: p in cache ==> cache[p] == extract(p) && cache[p] != ""
  }

  datatype Screened = Screened(result: Option<ScreeningResult>, cache: map<string, string>)

  /** `screen_candidate`: extract (or reuse the cached text), give up on an
      empty extraction without calling the agent and without caching it,
      then interpret the agent's reply. */
  function ScreenCandidate(path: string, extract: string -> string, cache: map<string, string>,
                           reply: Reply<ScreeningResult>): (r: Screened)
    ensures path !in cache && extract(path) == "" ==> r == Screened(None, cache)
    ensures path in cache ==> r.cache == cache
    ensures path !in cache && extract(path) != "" ==> r.cache == cache[path := extract(path)]
    ensures CacheSound(cache, extract) ==>
              CacheSound(r.cache, extract) && r.result == ScreenText(extract(path), reply)
  {
    if path !in cache && extract(path) == "" then Screened(None, cache)
    else
      var cache' := if path in cache then cache else cache[path := extract(path)];
      Screened(ScreenText(cache'[path], reply), cache')
  }
}
