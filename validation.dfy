/** The request checks of app/utils/validation.py: `time_validation`, which
    turns two "HH:MM:SS" strings into a whole-hour window or an HTTP 400, and
    `is_valid_email`, a regular-expression test on e-mail addresses. */
module Validation {
  import opened Outcomes
  import opened Seqs
  import opened TimeOfDay

  const InvalidFormat := "Invalid time format. Use HH:MM:SS"
  const EndBeforeStart := "End time must be after start time"
  const SameTimes := "Times must be different"
  const NotOnTheHour := "Time must be on the hour, e.g., 10:00:00"

  // ---------------------------------------------------------------------
  // str.strip('"')

  /** `s` with its run of leading '"' characters removed. */
  function StripLeading(s: string): (r: string)
    ensures |r| <= |s| && r == s[|s| - |r|..]
    ensures forall k :: 0 <= k < |s| - |r| ==> s[k] == '"'
    ensures r == [] || r[0] != '"'
    decreases |s|
  {
    if s != [] && s[0] == '"' then StripLeading(s[1..]) else s
  }

  /** `s` with its run of trailing '"' characters removed. */
  function StripTrailing(s: string): (r: string)
    ensures |r| <= |s| && r == s[..|r|]
    ensures forall k :: |r| <= k < |s| ==> s[k] == '"'
    ensures r == [] || r[|r| - 1] != '"'
    decreases |s|
  {
    if s != [] && s[|s| - 1] == '"' then StripTrailing(s[..|s| - 1]) else s
  }

  /** Every character of `s` is a '"'. */
  predicate AllQuotes(s: string)
  {
    forall k :: 0 <= k < |s| ==> s[k] == '"'
  }

  /** Cutting a run of '"' off the front of `s` and then one off the back
      leaves a slice of `s` with only '"' outside it. */
  lemma QuotesAroundSlice(s: string, lead: string, r: string)
    requires |lead| <= |s| && lead == s[|s| - |lead|..]
    requires forall k :: 0 <= k < |s| - |lead| ==> s[k] == '"'
    requires |r| <= |lead| && r == lead[..|r|]
    requires forall k :: |r| <= k < |lead| ==> lead[k] == '"'
    ensures exists a, b :: 0 <= a <= b <= |s| && r == s[a..b] && AllQuotes(s[..a]) && AllQuotes(s[b..])
  {
    var a, b := |s| - |lead|, |s| - |lead| + |r|;
    assert r == s[a..b];
    assert AllQuotes(s[..a]);
    assert s[b..] == lead[|r|..];
    assert AllQuotes(s[b..]);
  }

  /** Python's `s.strip('"')`: the result is a slice `s[a..b]` with only '"'
      characters outside it, and neither end of the result is a '"'. */
  function StripQuotes(s: string): (r: string)
    ensures |r| <= |s|
    ensures exists a, b :: 0 <= a <= b <= |s| && r == s[a..b] && AllQuotes(s[..a]) && AllQuotes(s[b..])
    ensures r == [] || (r[0] != '"' && r[|r| - 1] != '"')
  {
    var lead := StripLeading(s);
    var r := StripTrailing(lead);
    QuotesAroundSlice(s, lead, r);
    r
  }

  /** Stripping a string that has no quote at either end leaves it alone, so
      stripping twice is stripping once. */
  lemma StripQuotesIdempotent(s: string)
    ensures StripQuotes(StripQuotes(s)) == StripQuotes(s)
  {
    var r := StripQuotes(s);
    assert StripLeading(r) == r;
    assert StripTrailing(r) == r;
  }

  // ---------------------------------------------------------------------
  // datetime.strptime(s, "%H:%M:%S").time() and str(time)

  predicate IsDigit(c: char)
  {
    '0' <= c <= '9'
  }

  function DigitValue(c: char): int
    requires IsDigit(c)
  {
    c as int - '0' as int
  }

  function DigitChar(n: int): (c: char)
    requires 0 <= n < 10
    ensures IsDigit(c) && DigitValue(c) == n
  {
    ('0' as int + n) as char
  }

  /** One field of `%H`, `%M` or `%S`: one or two ASCII digits. */
  function Field(d: string): (r: Option<int>)
    ensures r.Some? ==> 0 <= r.value < 100
  {
    if |d| == 1 && IsDigit(d[0]) then Some(DigitValue(d[0]))
    else if |d| == 2 && IsDigit(d[0]) && IsDigit(d[1]) then Some(10 * DigitValue(d[0]) + DigitValue(d[1]))
    else None
  }

  /** Parses "H:M:S" with one- or two-digit fields; an hour above 23 or a
      minute or second above 59 does not parse. */
  function ParseTime(s: string): (r: Option<Time>)
    ensures r.Some? ==> Valid(r.value)
  {
    match IndexOf(s, ':')
    case None => None
    case Some(i) =>
      var rest := s[i + 1..];
      match IndexOf(rest, ':')
      case None => None
      case Some(j) =>
        match (Field(s[..i]), Field(rest[..j]), Field(rest[j + 1..]))
        case (Some(h), Some(m), Some(sec)) =>
          if h < 24 && m < 60 && sec < 60 then Some(Time(h, m, sec)) else None
        case _ => None
  }

  function TwoDigits(n: int): (r: string)
    requires 0 <= n < 100
    ensures |r| == 2 && IsDigit(r[0]) && IsDigit(r[1])
  {
    [DigitChar(n / 10), DigitChar(n % 10)]
  }

  /** `str(t)` for a time without microseconds: "HH:MM:SS". */
  function FormatTime(t: Time): (r: string)
    requires Valid(t)
    ensures |r| == 8
  {
    TwoDigits(t.hour) + ":" + TwoDigits(t.minute) + ":" + TwoDigits(t.second)
  }

  lemma FieldTwoDigits(n: int)
    requires 0 <= n < 100
    ensures Field(TwoDigits(n)) == Some(n)
  {
  }

  /** Parsing what `str(time)` prints gives the time back. */
  lemma {:induction false} ParseFormatTime(t: Time)
    requires Valid(t)
    ensures ParseTime(FormatTime(t)) == Some(t)
  {
    var s := FormatTime(t);
    assert s[2] == ':' && s[5] == ':';
    assert IndexOf(s, ':') == Some(2);
    var rest := s[3..];
    assert rest == TwoDigits(t.minute) + ":" + TwoDigits(t.second);
    assert IndexOf(rest, ':') == Some(2);
    assert s[..2] == TwoDigits(t.hour);
    assert rest[..2] == TwoDigits(t.minute);
    assert rest[3..] == TwoDigits(t.second);
    FieldTwoDigits(t.hour);
    FieldTwoDigits(t.minute);
    FieldTwoDigits(t.second);
  }

  // ---------------------------------------------------------------------
  // time_validation

  /** `time_validation(start_time, end_time)`: strip quotes and parse both
      strings, then reject an end before the start, then equal times, then
      times off the hour; otherwise return the parsed pair. Every rejection
      is an HTTP 400. */
  function TimeValidation(startTime: string, endTime: string): (r: Response<(Time, Time)>)
    ensures r.Err? ==> r.status == 400
    ensures r.Ok? ==>
      && ParseTime(StripQuotes(startTime)) == Some(r.value.0)
      && ParseTime(StripQuotes(endTime)) == Some(r.value.1)
    ensures r.Ok? ==>
      && Valid(r.value.0) && Valid(r.value.1)
      && Before(r.value.0, r.value.1)
      && OnTheHour(r.value.0) && OnTheHour(r.value.1)
    ensures r == Err(400, InvalidFormat) <==>
      ParseTime(StripQuotes(startTime)).None? || ParseTime(StripQuotes(endTime)).None?
  {
    var ps, pe := ParseTime(StripQuotes(startTime)), ParseTime(StripQuotes(endTime));
    if ps.None? || pe.None? then Err(400, InvalidFormat)
    else
      var s, e := ps.value, pe.value;
      if Before(e, s) then Err(400, EndBeforeStart)
      else if e == s then Err(400, SameTimes)
      else if !OnTheHour(s) || !OnTheHour(e) then Err(400, NotOnTheHour)
      else
        BeforeIsLexicographic(s, e);
        Ok((s, e))
  }

  /** The checks run in a fixed order: an end before the start is reported
      even when the times are also off the hour, equal times are reported even
      when they are on the hour, and every parsed, ordered, distinct, whole-hour
      pair is accepted. */
  lemma TimeValidationOrder(startTime: string, endTime: string, s: Time, e: Time)
    requires ParseTime(StripQuotes(startTime)) == Some(s)
    requires ParseTime(StripQuotes(endTime)) == Some(e)
    ensures Before(e, s) ==> TimeValidation(startTime, endTime) == Err(400, EndBeforeStart)
    ensures s == e ==> TimeValidation(startTime, endTime) == Err(400, SameTimes)
    ensures Before(s, e) && !(OnTheHour(s) && OnTheHour(e)) ==>
      TimeValidation(startTime, endTime) == Err(400, NotOnTheHour)
    ensures Before(s, e) && OnTheHour(s) && OnTheHour(e) ==>
      TimeValidation(startTime, endTime) == Ok((s, e))
  {
    var r := TimeValidation(startTime, endTime);
    if Before(e, s) {
      assert r == Err(400, EndBeforeStart);
    } else if s == e {
      assert r == Err(400, SameTimes);
    } else if !(OnTheHour(s) && OnTheHour(e)) {
      assert r == Err(400, NotOnTheHour);
    }
  }

  /** "10:30:00" to "09:15:00" is both reversed and off the hour; the order
      check comes first. Quotes around a time are ignored. */
  lemma ReversedMisalignedExample()
    ensures TimeValidation("\"10:30:00\"", "09:15:00") == Err(400, EndBeforeStart)
  {
    StripExamples();
    ParseExamples();
  }

  lemma StripExamples()
    ensures StripQuotes("\"10:30:00\"") == "10:30:00"
    ensures StripQuotes("09:15:00") == "09:15:00"
  {
    assert StripLeading("\"10:30:00\"") == StripLeading("10:30:00\"") == "10:30:00\"";
    assert StripTrailing("10:30:00\"") == StripTrailing("10:30:00") == "10:30:00";
  }

  lemma ParseExamples()
    ensures ParseTime("10:30:00") == Some(Time(10, 30, 0))
    ensures ParseTime("09:15:00") == Some(Time(9, 15, 0))
  {
    var a, b := Time(10, 30, 0), Time(9, 15, 0);
    assert FormatTime(a) == "10:30:00";
    assert FormatTime(b) == "09:15:00";
    ParseFormatTime(a);
    ParseFormatTime(b);
  }


  // ---------------------------------------------------------------------
  // is_valid_email: ^[a-zA-Z0-9._%+-]+@[a-zA-Z0-9.-]+\.[a-zA-Z]{2,}$

  predicate IsAsciiLetter(c: char)
  {
    'a' <= c <= 'z' || 'A' <= c <= 'Z'
  }

  /** The class `[a-zA-Z0-9._%+-]` of the local part. */
  predicate IsLocalChar(c: char)
  {
    IsAsciiLetter(c) || IsDigit(c) || c == '.' || c == '_' || c == '%' || c == '+' || c == '-'
  }

  /** The class `[a-zA-Z0-9.-]` of the domain. */
  predicate IsDomainChar(c: char)
  {
    IsAsciiLetter(c) || IsDigit(c) || c == '.' || c == '-'
  }

  /** `s` reads local `@` domain `.` tld with the '@' at `at` and the '.' at
      `dot`: a non-empty local part, a non-empty domain and a top-level domain
      of at least two letters. */
  predicate EmailSplit(s: string, at: int, dot: int)
  {
    && 0 < at && at + 1 < dot && dot + 2 < |s|
    && s[at] == '@' && s[dot] == '.'
    && (forall k :: 0 <= k < at ==> IsLocalChar(s[k]))
    && (forall k :: at < k < dot ==> IsDomainChar(s[k]))
    && (forall k :: dot < k < |s| ==> IsAsciiLetter(s[k]))
  }

  /** The whole string matches the pattern: some split position works. */
  ghost predicate MatchesEmailPattern(s: string)
  {
    exists at, dot :: EmailSplit(s, at, dot)
  }

  /** A string the pattern matches splits at its first '@' and its last '.':
      no character class but the domain's holds '.', and none holds '@'. */
  lemma MatchSplitsAtFirstAtLastDot(s: string)
    requires MatchesEmailPattern(s)
    ensures IndexOf(s, '@').Some? && LastIndexOf(s, '.').Some?
    ensures EmailSplit(s, IndexOf(s, '@').value, LastIndexOf(s, '.').value)
  {
    var at, dot :| EmailSplit(s, at, dot);
    assert IndexOf(s, '@') == Some(at);
    assert LastIndexOf(s, '.') == Some(dot);
  }

  /** `is_valid_email(email)`: accepts exactly the strings the pattern
      matches, trying only the split at the first '@' and the last '.'. */
  function IsValidEmail(s: string): (r: bool)
    ensures r <==> MatchesEmailPattern(s)
  {
    assert MatchesEmailPattern(s) ==>
      && IndexOf(s, '@').Some? && LastIndexOf(s, '.').Some?
      && EmailSplit(s, IndexOf(s, '@').value, LastIndexOf(s, '.').value)
    by {
      if MatchesEmailPattern(s) {
        MatchSplitsAtFirstAtLastDot(s);
      }
    }
    match (IndexOf(s, '@'), LastIndexOf(s, '.'))
    case (Some(at), Some(dot)) => EmailSplit(s, at, dot)
    case _ => false
  }
}
