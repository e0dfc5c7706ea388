/** The scheduling step `schedule_interview`
    (employee_recruiter_agent.py:384-430): the scheduler agent's slot is taken
    as is, and a reply that is text instead of a `ScheduledCall` is replaced
    by a made-up slot one to seven days ahead, on the hour between 10:00 and
    17:00, with a nine-digit meeting number. */
module Scheduling {
  import opened Wrappers
  import opened Text
  import opened Records

  /** `random.randint(1, 7)`: how many days ahead the call is. */
  type DayOffset = d: nat | 1 <= d <= 7 witness 1

  /** `random.randint(10, 17)`: the hour of the call. */
  type Hour = h: nat | 10 <= h <= 17 witness 10

  /** `random.randint(100000000, 999999999)`: the meeting number. */
  type MeetingId = n: nat | 100000000 <= n <= 999999999 witness 100000000

  /** The three random draws of one fallback, in the order they are made. */
  datatype SlotDraw = SlotDraw(days: DayOffset, hour: Hour, meetingId: MeetingId)

  const MeetingPrefix: string := "https://zoom.us/j/"
  const MeetingIdDigits: nat := 9
  const TimeSuffix: string := ":00 IST"

  /** A meeting link: the prefix and then exactly nine digits, the first not
      a zero. */
  predicate IsMeetingUrl(url: string) {
    |url| == |MeetingPrefix| + MeetingIdDigits
    && url[..|MeetingPrefix|] == MeetingPrefix
    && AllDigits(url[|MeetingPrefix|..])
    && url[|MeetingPrefix|] != '0'
  }

  /** `f"https://zoom.us/j/{meeting_id}"`. */
  function MeetingUrl(id: MeetingId): (url: string)
    ensures IsMeetingUrl(url)
  {
    assert Pow10(MeetingIdDigits) == 1000000000;
    DecimalStringLength(id, MeetingIdDigits);
    var digits := DecimalString(id);
    assert (MeetingPrefix + digits)[|MeetingPrefix|..] == digits;
    MeetingPrefix + digits
  }

  /** The meeting number a link carries. */
  function MeetingIdOf(url: string): nat
    requires |MeetingPrefix| <= |url|
  {
    DecimalValue(url[|MeetingPrefix|..])
  }

  /** The link gives its meeting number back, so different numbers give
      different links. */
  lemma MeetingUrlRoundTrip(id: MeetingId)
    ensures MeetingIdOf(MeetingUrl(id)) == id
  {
    var digits := DecimalString(id);
    assert MeetingUrl(id)[|MeetingPrefix|..] == digits;
  }

  /** `scheduled_time.strftime('%Y-%m-%d %H:%M IST')` once the date part has
      been rendered: minutes are always zero, and the hour has two digits. */
  function CallTime(date: string, hour: Hour): (t: string)
    ensures |t| == |date| + 3 + |TimeSuffix|
  {
    DecimalStringLength(hour, 2);
    date + " " + DecimalString(hour) + TimeSuffix
  }

  /** The date, a space, the hour as two digits, and ":00 IST": the hour can
      be read back from the fixed position after the date. */
  lemma CallTimeFields(date: string, hour: Hour)
    ensures var t := CallTime(date, hour);
            t[..|date|] == date && t[|date|] == ' '
            && AllDigits(t[|date| + 1..|date| + 3])
            && DecimalValue(t[|date| + 1..|date| + 3]) == hour
            && t[|date| + 3..] == TimeSuffix
  {
    DecimalStringLength(hour, 2);
    var t := CallTime(date, hour);
    var hh := DecimalString(hour);
    assert t == date + [' '] + hh + TimeSuffix;
    assert t[|date| + 1..|date| + 3] == hh;
  }

  /** The slot made up from the random draws; `clock(d)` renders the date `d`
      days from now. */
  function FallbackSchedule(candidate: ScreeningResult, draw: SlotDraw, clock: nat -> string): (call: ScheduledCall)
    ensures call.name == candidate.name && call.email == candidate.email
    ensures IsMeetingUrl(call.url) && MeetingIdOf(call.url) == draw.meetingId
    ensures var date := clock(draw.days);
            |call.callTime| == |date| + 3 + |TimeSuffix| && call.callTime[..|date|] == date
            && DecimalValue(call.callTime[|date| + 1..|date| + 3]) == draw.hour
            && 10 <= DecimalValue(call.callTime[|date| + 1..|date| + 3]) <= 17
            && call.callTime[|date| + 3..] == TimeSuffix
    ensures var date := clock(draw.days);
            call.callTime[|date|] == ' ' && AllDigits(call.callTime[|date| + 1..|date| + 3])
    ensures 100000000 <= MeetingIdOf(call.url) <= 999999999
  {
    MeetingUrlRoundTrip(draw.meetingId);
    CallTimeFields(clock(draw.days), draw.hour);
    ScheduledCall(candidate.name, candidate.email, CallTime(clock(draw.days), draw.hour), MeetingUrl(draw.meetingId))
  }

  /** `schedule_interview`: a structured reply is the slot, non-empty text
      gets the made-up slot, and no reply, empty content or a failure gives
      nothing. */
  function ScheduleInterview(candidate: ScreeningResult, reply: Reply<ScheduledCall>,
                             draw: SlotDraw, clock: nat -> string): (r: Option<ScheduledCall>)
    ensures r.None? <==> reply.Failed? || reply == Raw("")
    ensures reply.Structured? ==> r == Some(reply.value)
    ensures reply.Raw? && reply.text != "" ==> r == Some(FallbackSchedule(candidate, draw, clock))
  {
    match reply
    case Structured(call) => Some(call)
    case Raw(text) => if text == "" then None else Some(FallbackSchedule(candidate, draw, clock))
    case Failed => None
  }

  /** What the text of a non-structured reply says does not matter: any two
      non-empty texts give the same slot. */
  lemma RawTextIgnored(candidate: ScreeningResult, t1: string, t2: string, draw: SlotDraw, clock: nat -> string)
    requires t1 != "" && t2 != ""
    ensures ScheduleInterview(candidate, Raw(t1), draw, clock) == ScheduleInterview(candidate, Raw(t2), draw, clock)
  {
  }
}
