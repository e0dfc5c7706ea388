/** Hand-written scanners for the five regular expressions the fallback
    parsers use, each proved against a declarative description of the
    pattern's language and of the choice Python's backtracking engine makes.

      EmailAddress      [\w\.-]+@[\w\.-]+\.\w+
      Labelled(key)     key[:\s]+(\d+\.?\d*)      (key is "score" or "rating")
      OutOfTen          (\d+\.?\d*)/10
      SubjectLine       subject[:\s]+(.*?)[\n\r]    (re.IGNORECASE)

    `re.search` returns the match at the leftmost start index at which the
    pattern matches at all; at that index the engine returns the first match
    in its backtracking order. For the greedy patterns that first match is the
    longest one; for SubjectLine, whose greedy separator run is followed by a
    lazy `.*?`, it is the match with the longest separator run and, for that
    run, the shortest capture. `MatchesAt` describes the language,
    `Prefers` the backtracking order, and `Search` is proved to return the
    leftmost start and the preferred match there. Character classes are the
    ASCII ones of module Text. */
module Patterns {
  import opened Wrappers
  import opened Text

  datatype CharClass = Digit | Word | EmailChar | Separator

  predicate InClass(c: char, k: CharClass) {
    match k
    case Digit => IsDigit(c)                              // \d
    case Word => IsWordChar(c)                            // \w
    case EmailChar => IsWordChar(c) || c == '.' || c == '-'   // [\w\.-]
    case Separator => c == ':' || IsSpace(c)              // [:\s]
  }

  /** Every character of `s[lo..hi]` is in class `k`. */
  predicate AllIn(s: string, lo: int, hi: int, k: CharClass) {
    0 <= lo <= hi <= |s| && forall x :: lo <= x < hi ==> InClass(s[x], k)
  }

  /** The end of the longest run of class-`k` characters starting at `i`. */
  function RunEnd(s: string, i: nat, k: CharClass): (j: nat)
    requires i <= |s|
    ensures i <= j <= |s| && AllIn(s, i, j, k)
    ensures j < |s| ==> !InClass(s[j], k)
    decreases |s| - i
  {
    if i < |s| && InClass(s[i], k) then RunEnd(s, i + 1, k) else i
  }

  // ---------------------------------------------------------------------
  // Numerals  \d+\.?\d*

  /** `s[i..n]` is a numeral whose integer digits end at `d`. */
  predicate NumeralSplit(s: string, i: int, d: int, n: int) {
    0 <= i < d <= n <= |s| && AllIn(s, i, d, Digit)
    && (d == n || (s[d] == '.' && AllIn(s, d + 1, n, Digit)))
  }

  /** The end of the longest numeral starting at a digit. */
  function NumeralEnd(s: string, i: nat): (n: nat)
    requires i < |s| && IsDigit(s[i])
    ensures i < n <= |s|
  {
    var d := RunEnd(s, i, Digit);
    if d < |s| && s[d] == '.' then RunEnd(s, d + 1, Digit) else d
  }

  lemma NumeralEndIsNumeral(s: string, i: nat)
    requires i < |s| && IsDigit(s[i])
    ensures NumeralSplit(s, i, RunEnd(s, i, Digit), NumeralEnd(s, i))
  {
  }

  lemma NumeralEndLongest(s: string, i: nat, d: int, n: int)
    requires NumeralSplit(s, i, d, n)
    ensures n <= NumeralEnd(s, i)
  {
    assert d != n ==> d == RunEnd(s, i, Digit);
  }

  /** A numeral followed by a character that can neither continue the digits
      nor start the fraction is the longest one. */
  lemma NumeralEndAtStop(s: string, i: nat, d: int, n: int)
    requires NumeralSplit(s, i, d, n) && n < |s| && s[n] != '.' && !IsDigit(s[n])
    ensures n == NumeralEnd(s, i)
  {
    NumeralEndLongest(s, i, d, n);
  }

  // ---------------------------------------------------------------------
  // EmailAddress  [\w\.-]+@[\w\.-]+\.\w+

  /** `s[i..k]` matches with the `@` at `at` and the last literal dot at `dot`. */
  predicate EmailSplit(s: string, i: int, at: int, dot: int, k: int) {
    0 <= i < at && at + 1 < dot && dot + 1 < k <= |s|
    && AllIn(s, i, at, EmailChar) && s[at] == '@'
    && AllIn(s, at + 1, dot, EmailChar) && s[dot] == '.'
    && AllIn(s, dot + 1, k, Word)
  }

  predicate DotBeforeWord(s: string, d: int) {
    0 <= d && d + 1 < |s| && s[d] == '.' && IsWordChar(s[d + 1])
  }

  /** The largest `d` in `[lo, hi - 1)` with a dot at `d` and a word
      character after it. */
  function LastDotBeforeWord(s: string, lo: nat, hi: nat): (r: Option<nat>)
    requires hi <= |s|
    ensures r.Some? ==> lo <= r.value && r.value + 1 < hi && DotBeforeWord(s, r.value)
    ensures r.Some? ==> forall d :: r.value < d && d + 1 < hi ==> !DotBeforeWord(s, d)
    ensures r.None? ==> forall d :: lo <= d && d + 1 < hi ==> !DotBeforeWord(s, d)
    decreases hi
  {
    if hi < lo + 2 then None
    else if DotBeforeWord(s, hi - 2) then Some(hi - 2)
    else LastDotBeforeWord(s, lo, hi - 1)
  }

  /** The email match starting at `i`, if any: the local part is forced to
      the whole `[\w\.-]` run (the `@` cannot be inside it), and the domain
      backs off to the last dot that is followed by a word character. */
  function EmailAt(s: string, i: nat): Option<Span>
    requires i <= |s|
  {
    var at := RunEnd(s, i, EmailChar);
    if at == i || at == |s| || s[at] != '@' then None
    else
      var q := RunEnd(s, at + 1, EmailChar);
      match LastDotBeforeWord(s, at + 2, q)
      case None => None
      case Some(dot) => Some(Span(i, RunEnd(s, dot + 1, Word)))
  }

  /** Any email match at `i` is found by `EmailAt`, and is no longer than it. */
  lemma EmailAtComplete(s: string, i: nat, at: int, dot: int, k: int)
    requires EmailSplit(s, i, at, dot, k)
    ensures EmailAt(s, i).Some? && EmailAt(s, i).value.start == i && k <= EmailAt(s, i).value.end
  {
    var at0 := RunEnd(s, i, EmailChar);
    assert at == at0;
    var q := RunEnd(s, at + 1, EmailChar);
    // the whole match lies inside the domain's [\w\.-] run
    assert AllIn(s, at + 1, k, EmailChar);
    assert DotBeforeWord(s, dot) by { assert InClass(s[dot + 1], Word); }
    var r := LastDotBeforeWord(s, at + 2, q);
    assert r.Some? && dot <= r.value;
  }

  lemma EmailAtSound(s: string, i: nat)
    requires i <= |s| && EmailAt(s, i).Some?
    ensures var c := EmailAt(s, i).value;
            c.start == i && exists at, dot :: EmailSplit(s, i, at, dot, c.end)
  {
    var at := RunEnd(s, i, EmailChar);
    var q := RunEnd(s, at + 1, EmailChar);
    var dot := LastDotBeforeWord(s, at + 2, q).value;
    var k := RunEnd(s, dot + 1, Word);
    assert InClass(s[dot + 1], Word);
    assert EmailSplit(s, i, at, dot, k);
  }

  // ---------------------------------------------------------------------
  // Labelled(key)  key[:\s]+(\d+\.?\d*)   -- capture is the numeral

  predicate LabelledSplit(s: string, key: string, i: int, r: int, d: int, n: int) {
    OccursAt(s, key, i) && i + |key| < r && AllIn(s, i + |key|, r, Separator)
    && NumeralSplit(s, r, d, n)
  }

  /** The separator run is forced (a digit is never a separator) and the
      numeral is taken greedily. */
  function LabelledAt(s: string, key: string, i: nat): Option<Span>
    requires i <= |s|
  {
    if !OccursAt(s, key, i) then None
    else
      var p := i + |key|;
      var r := RunEnd(s, p, Separator);
      if r == p || r == |s| || !IsDigit(s[r]) then None
      else Some(Span(r, NumeralEnd(s, r)))
  }

  lemma LabelledAtComplete(s: string, key: string, i: nat, r: int, d: int, n: int)
    requires LabelledSplit(s, key, i, r, d, n)
    ensures LabelledAt(s, key, i) == Some(Span(r, NumeralEnd(s, r)))
    ensures n <= NumeralEnd(s, r)
  {
    var p := i + |key|;
    assert IsDigit(s[r]) by { assert InClass(s[r], Digit); }
    NumeralEndLongest(s, r, d, n);
  }

  lemma LabelledAtSound(s: string, key: string, i: nat)
    requires i <= |s| && LabelledAt(s, key, i).Some?
    ensures var c := LabelledAt(s, key, i).value;
            exists d :: LabelledSplit(s, key, i, c.start, d, c.end)
  {
    var c := LabelledAt(s, key, i).value;
    NumeralEndIsNumeral(s, c.start);
    assert LabelledSplit(s, key, i, c.start, RunEnd(s, c.start, Digit), c.end);
  }

  // ---------------------------------------------------------------------
  // OutOfTen  (\d+\.?\d*)/10   -- capture is the numeral

  const OutOfTenSuffix: string := "/10"

  /** The only numeral that can precede "/10" is the longest one. */
  function OutOfTenAt(s: string, i: nat): Option<Span>
    requires i <= |s|
  {
    if i < |s| && IsDigit(s[i]) then
      var n := NumeralEnd(s, i);
      if OccursAt(s, OutOfTenSuffix, n) then Some(Span(i, n)) else None
    else None
  }

  lemma OutOfTenAtComplete(s: string, i: nat, d: int, n: int)
    requires NumeralSplit(s, i, d, n) && OccursAt(s, OutOfTenSuffix, n)
    ensures OutOfTenAt(s, i) == Some(Span(i, n))
  {
    assert s[n] == '/' by { assert s[n..n + 3][0] == OutOfTenSuffix[0]; }
    NumeralEndAtStop(s, i, d, n);
  }

  lemma OutOfTenAtSound(s: string, i: nat)
    requires i <= |s| && OutOfTenAt(s, i).Some?
    ensures var c := OutOfTenAt(s, i).value;
            c.start == i && exists d :: NumeralSplit(s, i, d, c.end) && OccursAt(s, OutOfTenSuffix, c.end)
  {
    NumeralEndIsNumeral(s, i);
  }

  // ---------------------------------------------------------------------
  // SubjectLine  subject[:\s]+(.*?)[\n\r]  with re.IGNORECASE

  const SubjectKeyword: string := "subject"

  predicate IsLineBreak(c: char) { c == '\n' || c == '\r' }

  /** The keyword (any ASCII case) at `i`, a non-empty separator run up to
      `a`, the capture `s[a..m]` free of '\n' (what `.` refuses), and a line
      break at `m`. */
  predicate SubjectSplit(s: string, i: int, a: int, m: int) {
    0 <= i && i + |SubjectKeyword| < a <= m < |s|
    && Lower(s[i..i + |SubjectKeyword|]) == SubjectKeyword
    && AllIn(s, i + |SubjectKeyword|, a, Separator)
    && (forall x :: a <= x < m ==> s[x] != '\n')
    && IsLineBreak(s[m])
  }

  /** The first line break at or after `from`. */
  function FirstBreakFrom(s: string, from: nat): (r: Option<nat>)
    ensures r.Some? ==> from <= r.value < |s| && IsLineBreak(s[r.value])
    ensures r.Some? ==> forall x :: from <= x < r.value ==> !IsLineBreak(s[x])
    ensures r.None? ==> forall x :: from <= x < |s| ==> !IsLineBreak(s[x])
    decreases |s| - from
  {
    if from >= |s| then None
    else if IsLineBreak(s[from]) then Some(from)
    else FirstBreakFrom(s, from + 1)
  }

  /** The last line break in `s[lo..hi]`. */
  function LastBreakIn(s: string, lo: nat, hi: nat): (r: Option<nat>)
    requires hi <= |s|
    ensures r.Some? ==> lo <= r.value < hi && IsLineBreak(s[r.value])
    ensures r.Some? ==> forall x :: r.value < x < hi ==> !IsLineBreak(s[x])
    ensures r.None? ==> forall x :: lo <= x < hi ==> !IsLineBreak(s[x])
    decreases hi
  {
    if hi <= lo then None
    else if IsLineBreak(s[hi - 1]) then Some(hi - 1)
    else LastBreakIn(s, lo, hi - 1)
  }

  /** Keeping the whole separator run works when a line break follows it,
      and the capture then stops at the first one. Otherwise the engine gives
      back separator characters until the run ends at a line break inside
      it, capturing the empty string there; the run must keep at least one
      character. */
  function SubjectAt(s: string, i: nat): Option<Span>
    requires i <= |s|
  {
    var p := i + |SubjectKeyword|;
    if p > |s| || Lower(s[i..p]) != SubjectKeyword then None
    else
      var r := RunEnd(s, p, Separator);
      if r == p then None
      else
        match FirstBreakFrom(s, r)
        case Some(m) => Some(Span(r, m))
        case None =>
          match LastBreakIn(s, p + 1, r)
          case Some(x) => Some(Span(x, x))
          case None => None
  }

  lemma SubjectAtSound(s: string, i: nat)
    requires i <= |s| && SubjectAt(s, i).Some?
    ensures SubjectSplit(s, i, SubjectAt(s, i).value.start, SubjectAt(s, i).value.end)
  {
  }

  /** Any subject match at `i` is found, and the one returned has a separator
      run at least as long, and for an equally long run a capture no longer. */
  lemma SubjectAtComplete(s: string, i: nat, a: int, m: int)
    requires SubjectSplit(s, i, a, m)
    ensures SubjectAt(s, i).Some?
    ensures var c := SubjectAt(s, i).value;
            a < c.start || (a == c.start && c.end <= m)
  {
    var p := i + |SubjectKeyword|;
    var r := RunEnd(s, p, Separator);
    if FirstBreakFrom(s, r).None? {
      assert m < r;
      assert LastBreakIn(s, p + 1, r).Some?;
    }
  }

  // ---------------------------------------------------------------------
  // The four patterns together

  datatype Pattern = EmailAddress | Labelled(key: string) | OutOfTen | SubjectLine

  /** The capturing group of a match (the whole match for EmailAddress). */
  datatype Span = Span(start: nat, end: nat)

  /** `p` matches `s` at start index `i` with its group spanning `c`. */
  ghost predicate MatchesAt(p: Pattern, s: string, i: nat, c: Span) {
    match p
    case EmailAddress =>
      c.start == i && exists at, dot :: EmailSplit(s, i, at, dot, c.end)
    case Labelled(key) =>
      exists d :: LabelledSplit(s, key, i, c.start, d, c.end)
    case OutOfTen =>
      c.start == i && exists d :: NumeralSplit(s, i, d, c.end) && OccursAt(s, OutOfTenSuffix, c.end)
    case SubjectLine =>
      SubjectSplit(s, i, c.start, c.end)
  }

  /** The engine tries the match with group `c` no later than the one with
      group `c2` (both starting at the same index). */
  predicate Prefers(p: Pattern, c: Span, c2: Span) {
    match p
    case SubjectLine => c2.start < c.start || (c2.start == c.start && c.end <= c2.end)
    case _ => c2.start == c.start && c2.end <= c.end
  }

  /** The match the engine returns for `p` anchored at `i`; `CaptureAtCorrect`
      says it is a match, preferred to every other match at `i`, and absent
      only when nothing matches. */
  function CaptureAt(p: Pattern, s: string, i: nat): (r: Option<Span>)
    requires i <= |s|
    ensures r.Some? ==> r.value.start <= r.value.end <= |s|
  {
    CaptureAtCorrect(p, s, i);
    Dispatch(p, s, i)
  }

  /** The scanner for `p`. */
  function Dispatch(p: Pattern, s: string, i: nat): Option<Span>
    requires i <= |s|
  {
    match p
    case EmailAddress => EmailAt(s, i)
    case Labelled(key) => LabelledAt(s, key, i)
    case OutOfTen => OutOfTenAt(s, i)
    case SubjectLine => SubjectAt(s, i)
  }

  lemma CaptureAtCorrect(p: Pattern, s: string, i: nat)
    requires i <= |s|
    ensures var r := Dispatch(p, s, i);
            (r.Some? ==> r.value.start <= r.value.end <= |s| && MatchesAt(p, s, i, r.value))
            && (r.Some? ==> forall c :: MatchesAt(p, s, i, c) ==> Prefers(p, r.value, c))
            && (r.None? ==> forall c :: !MatchesAt(p, s, i, c))
  {
    var r := Dispatch(p, s, i);
    match p
    case EmailAddress =>
      if r.Some? { EmailAtSound(s, i); }
      forall c | MatchesAt(p, s, i, c) ensures r.Some? && Prefers(p, r.value, c) {
        var at, dot :| EmailSplit(s, i, at, dot, c.end);
        EmailAtComplete(s, i, at, dot, c.end);
      }
    case Labelled(key) =>
      if r.Some? { LabelledAtSound(s, key, i); }
      forall c | MatchesAt(p, s, i, c) ensures r.Some? && Prefers(p, r.value, c) {
        var d :| LabelledSplit(s, key, i, c.start, d, c.end);
        LabelledAtComplete(s, key, i, c.start, d, c.end);
      }
    case OutOfTen =>
      if r.Some? { OutOfTenAtSound(s, i); }
      forall c | MatchesAt(p, s, i, c) ensures r.Some? && Prefers(p, r.value, c) {
        var d :| NumeralSplit(s, i, d, c.end) && OccursAt(s, OutOfTenSuffix, c.end);
        OutOfTenAtComplete(s, i, d, c.end);
      }
    case SubjectLine =>
      if r.Some? { SubjectAtSound(s, i); }
      forall c | MatchesAt(p, s, i, c) ensures r.Some? && Prefers(p, r.value, c) {
        SubjectAtComplete(s, i, c.start, c.end);
      }
  }

  // ---------------------------------------------------------------------
  // re.search

  /** A successful search: where the match starts and the span of its group. */
  datatype Match = Match(start: nat, capture: Span)

  function SearchFrom(p: Pattern, s: string, from: nat): (r: Option<Match>)
    ensures r.Some? ==> from <= r.value.start <= |s| && CaptureAt(p, s, r.value.start) == Some(r.value.capture)
    ensures r.Some? ==> forall j :: from <= j < r.value.start ==> CaptureAt(p, s, j).None?
    ensures r.None? ==> forall j :: from <= j <= |s| ==> CaptureAt(p, s, j).None?
    decreases |s| + 1 - from
  {
    if from > |s| then None
    else
      match CaptureAt(p, s, from)
      case Some(c) => Some(Match(from, c))
      case None => SearchFrom(p, s, from + 1)
  }

  /** Python's `re.search(p, s)`; `SearchCorrect` says which match it is. */
  function Search(p: Pattern, s: string): (r: Option<Match>)
    ensures r.Some? ==> r.value.start <= |s| && r.value.capture.start <= r.value.capture.end <= |s|
  {
    SearchFrom(p, s, 0)
  }

  /** The match `Search` returns is at the leftmost index where `p` matches
      at all, and there the match the engine prefers; there is no match only
      when `p` matches nowhere. */
  lemma SearchCorrect(p: Pattern, s: string)
    ensures var r := Search(p, s);
            (r.Some? ==> MatchesAt(p, s, r.value.start, r.value.capture))
            && (r.Some? ==> forall c :: MatchesAt(p, s, r.value.start, c) ==> Prefers(p, r.value.capture, c))
            && (r.Some? ==> forall j: nat, c :: j < r.value.start ==> !MatchesAt(p, s, j, c))
            && (r.None? <==> forall j: nat, c :: !MatchesAt(p, s, j, c))
  {
    var r := SearchFrom(p, s, 0);
    if r.Some? {
      CaptureAtCorrect(p, s, r.value.start);
      forall j: nat, c | j < r.value.start ensures !MatchesAt(p, s, j, c) {
        NoCaptureNoMatch(p, s, j, c);
      }
    } else {
      forall j: nat, c ensures !MatchesAt(p, s, j, c) {
        if j <= |s| {
          NoCaptureNoMatch(p, s, j, c);
        } else if MatchesAt(p, s, j, c) {
          MatchStartsInside(p, s, j, c);
        }
      }
    }
  }

  /** What `Search` returns is a match. */
  lemma SearchFound(p: Pattern, s: string)
    requires Search(p, s).Some?
    ensures MatchesAt(p, s, Search(p, s).value.start, Search(p, s).value.capture)
  {
    var r := SearchFrom(p, s, 0);
    CaptureAtCorrect(p, s, r.value.start);
  }

  /** Where the engine finds nothing, nothing matches. */
  lemma NoCaptureNoMatch(p: Pattern, s: string, j: nat, c: Span)
    requires j <= |s| && CaptureAt(p, s, j).None?
    ensures !MatchesAt(p, s, j, c)
  {
    CaptureAtCorrect(p, s, j);
  }

  lemma MatchStartsInside(p: Pattern, s: string, i: nat, c: Span)
    requires MatchesAt(p, s, i, c)
    ensures i < |s|
  {
    match p
    case EmailAddress =>
    case Labelled(key) =>
      var d :| LabelledSplit(s, key, i, c.start, d, c.end);
    case OutOfTen =>
    case SubjectLine =>
  }

  /** The text of a match's group. */
  function Captured(s: string, m: Match): string
    requires m.capture.start <= m.capture.end <= |s|
  {
    s[m.capture.start..m.capture.end]
  }
}
