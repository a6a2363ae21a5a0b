/** The pure part of jitter.py: `parse_time` (anchoring a wall-clock time on the session's start
    date), `line_parser` (one reply line of `ping --apple-time` to a sample) and `analyse`
    (the whole body to `pings`, `missed` and the jitter series). */
module Ping {
  import opened Failures
  import opened Text

  /** The prefix of the line `ping` prints for a lost probe: `Request timeout for icmp_seq 3`. */
  const TimeoutPrefix: String := "Request timeout"

  /** A resolved timestamp: `day` whole days after the session's start date, at
      `hour:minute:second`. Calendar dates are not modelled, only the day offset. */
  datatype Instant = Instant(day: nat, hour: nat, minute: nat, second: nat)

  /** Seconds since midnight of the start date. Naive `datetime` values differ by exactly
      86400 seconds per day, so `(a - b).total_seconds()` is `Seconds(a) - Seconds(b)`. */
  function Seconds(t: Instant): int {
    ((t.day * 24 + t.hour) * 60 + t.minute) * 60 + t.second
  }

  /** A `(timestamp, icmp_seq, milliseconds)` triple: a reply sample in `pings`, or a
      jitter value in `jitter`. Latencies are exact decimals, not binary floats. */
  datatype Reading = Reading(time: Instant, icmpSeq: int, ms: real)

  // ---------------------------------------------------------------- parse_time

  /** `h, m, s = map(int, stamp.split('.')[0].split(':'))`: anything from the first `.` on is
      ignored; a field count other than three, or a field `int()` refuses, raises ValueError. */
  function ParseClock(stamp: String): Result<(int, int, int)> {
    var fields := SplitOn(SplitOn(stamp, '.')[0], ':');
    if |fields| != 3 then Err(ValueError)
    else
      match (ParseInt(fields[0]), ParseInt(fields[1]), ParseInt(fields[2]))
      case (Some(h), Some(m), Some(s)) => Ok((h, m, s))
      case _ => Err(ValueError)
  }

  predicate ClockInRange(c: (int, int, int)) {
    0 <= c.0 < 24 && 0 <= c.1 < 60 && 0 <= c.2 < 60
  }

  /** `parse_time(stamp, start_time)`: the clock time on the start date, moved to the next day
      exactly when its hour is earlier than the start hour; `datetime` refuses an hour, minute
      or second out of range with ValueError. */
  function ParseTime(stamp: String, startHour: nat): (r: Result<Instant>)
    ensures r.Ok? <==> ParseClock(stamp).Ok? && ClockInRange(ParseClock(stamp).value)
    ensures r.Err? ==> r.error == ValueError
    ensures r.Ok? ==> var c := ParseClock(stamp).value;
      r.value.hour == c.0 && r.value.minute == c.1 && r.value.second == c.2
    ensures r.Ok? ==> r.value.day <= 1 && (r.value.day == 1 <==> r.value.hour < startHour)
  {
    match ParseClock(stamp)
    case Err(e) => Err(e)
    case Ok(c) =>
      if ClockInRange(c) then
        Ok(Instant(if c.0 < startHour then 1 else 0, c.0, c.1, c.2))
      else Err(ValueError)
  }

  /** The fraction of a second is ignored: whatever follows the first `.` does not change the
      result. */
  lemma ParseTimeIgnoresFraction(clock: String, frac: String, startHour: nat)
    requires '.' !in clock
    ensures ParseTime(clock + ['.'] + frac, startHour) == ParseTime(clock, startHour)
  {
    SplitOnFirst(clock, '.', frac);
  }

  /** `"%02d:%02d:%02d" % (h, m, s)` */
  function ClockText(h: nat, m: nat, s: nat): String
    requires h < 24 && m < 60 && s < 60
  {
    Show2(h) + [':'] + Show2(m) + [':'] + Show2(s)
  }

  /** A printed clock holds only digits and colons: no `.`, no whitespace and no `=`. */
  lemma ClockTextIsPlain(h: nat, m: nat, s: nat)
    requires h < 24 && m < 60 && s < 60
    ensures '.' !in ClockText(h, m, s)
    ensures forall k | 0 <= k < |ClockText(h, m, s)| :: !IsSpace(ClockText(h, m, s)[k]) && ClockText(h, m, s)[k] != '='
  {
    var t := ClockText(h, m, s);
    forall k | 0 <= k < |t| ensures t[k] != '.' && !IsSpace(t[k]) && t[k] != '=' {
      assert IsDigit(t[k]) || t[k] == ':';
    }
  }

  lemma ClockTextFields(h: nat, m: nat, s: nat)
    requires h < 24 && m < 60 && s < 60
    ensures SplitOn(ClockText(h, m, s), ':') == [Show2(h), Show2(m), Show2(s)]
  {
    var ps := [Show2(h), Show2(m), Show2(s)];
    assert ps[1..][1..] == [Show2(s)];
    assert JoinOn(ps[1..], ':') == Show2(m) + [':'] + Show2(s);
    assert JoinOn(ps, ':') == ClockText(h, m, s);
    forall k | 0 <= k < 3 ensures ':' !in ps[k] {
      forall j | 0 <= j < |ps[k]| ensures ps[k][j] != ':' {
        assert IsDigit(ps[k][j]);
      }
    }
    SplitOnJoinOn(ps, ':');
  }

  /** Reading back a printed clock gives the same hour, minute and second. */
  lemma ParseClockOfClockText(h: nat, m: nat, s: nat)
    requires h < 24 && m < 60 && s < 60
    ensures ParseClock(ClockText(h, m, s)) == Ok((h, m, s))
  {
    ClockTextIsPlain(h, m, s);
    assert SplitOn(ClockText(h, m, s), '.') == [ClockText(h, m, s)];
    ClockTextFields(h, m, s);
    Show2Value(h);
    Show2Value(m);
    Show2Value(s);
  }

  /** Reading back a printed clock, with any fraction of a second, gives the same time on the
      start date, or on the next day when the hour is earlier than the start hour. */
  lemma ParseTimeOfClockText(h: nat, m: nat, s: nat, frac: String, startHour: nat)
    requires h < 24 && m < 60 && s < 60
    ensures ParseTime(ClockText(h, m, s) + ['.'] + frac, startHour)
         == Ok(Instant(if h < startHour then 1 else 0, h, m, s))
  {
    ClockTextIsPlain(h, m, s);
    ParseTimeIgnoresFraction(ClockText(h, m, s), frac, startHour);
    ParseClockOfClockText(h, m, s);
  }

  /** The rule compares with the start hour, not with the previous sample: in a session that
      started at 10:00, a reply at 09:59:59 is placed on the next day, and one at 11:00:00 read
      after it goes back to the start date, so the stored timestamps need not increase. Three
      replies at 23:59:58, 23:59:59 and 00:00:01 in a session started at 23:00 are placed on
      the start date, the start date and the next day. */
  lemma StartHourRule()
    ensures ParseTime(ClockText(9, 59, 59), 10) == Ok(Instant(1, 9, 59, 59))
    ensures ParseTime(ClockText(11, 0, 0), 10) == Ok(Instant(0, 11, 0, 0))
    ensures Seconds(Instant(0, 11, 0, 0)) < Seconds(Instant(1, 9, 59, 59))
    ensures ParseTime(ClockText(23, 59, 58), 23) == Ok(Instant(0, 23, 59, 58))
    ensures ParseTime(ClockText(23, 59, 59), 23) == Ok(Instant(0, 23, 59, 59))
    ensures ParseTime(ClockText(0, 0, 1), 23) == Ok(Instant(1, 0, 0, 1))
  {
    ParseClockOfClockText(9, 59, 59);
    ParseClockOfClockText(11, 0, 0);
    ParseClockOfClockText(23, 59, 58);
    ParseClockOfClockText(23, 59, 59);
    ParseClockOfClockText(0, 0, 1);
  }

  // ---------------------------------------------------------------- line_parser

  /** `line_parser(line, start_time)`: field 0 is the clock, the text after the first `=` of
      field 5 the sequence number and that of field 7 the latency. Python evaluates them in this
      order, so a missing field raises IndexError and a malformed number ValueError, whichever
      comes first; no partial result is ever returned. */
  function ParseLine(line: String, startHour: nat): (r: Result<Reading>)
    ensures |Words(line)| < 8 ==> r.Err?
  {
    ParseFields(Words(line), startHour)
  }

  /** The body of `line_parser` after `parts = line.split()`. */
  function ParseFields(parts: seq<String>, startHour: nat): (r: Result<Reading>)
    ensures |parts| < 8 ==> r.Err?
  {
    if |parts| == 0 then Err(IndexError)
    else
      match ParseTime(parts[0], startHour)
      case Err(e) => Err(e)
      case Ok(time) =>
        if |parts| < 6 then Err(IndexError)
        else
          var seqField := SplitOn(parts[5], '=');
          if |seqField| < 2 then Err(IndexError)
          else
            match ParseInt(seqField[1])
            case None => Err(ValueError)
            case Some(icmpSeq) =>
              if |parts| < 8 then Err(IndexError)
              else
                var timeField := SplitOn(parts[7], '=');
                if |timeField| < 2 then Err(IndexError)
                else
                  match ParseDecimal(timeField[1])
                  case None => Err(ValueError)
                  case Some(ms) => Ok(Reading(time, icmpSeq, ms))
  }

  /** `line_parser` succeeds exactly when there are at least eight fields, fields 5 and 7 hold
      an `=`, and the clock, the sequence number and the latency all parse; its result is made of
      exactly those three values. */
  lemma ParseLineFields(line: String, startHour: nat)
    ensures ParseLine(line, startHour).Ok? <==>
      var ws := Words(line);
      |ws| >= 8 && '=' in ws[5] && '=' in ws[7] && ParseTime(ws[0], startHour).Ok?
      && ParseInt(SplitOn(ws[5], '=')[1]).Some? && ParseDecimal(SplitOn(ws[7], '=')[1]).Some?
    ensures ParseLine(line, startHour).Ok? ==>
      var ws := Words(line);
      var r := ParseLine(line, startHour).value;
      |ws| >= 8 && '=' in ws[5] && '=' in ws[7]
      && ParseTime(ws[0], startHour) == Ok(r.time)
      && ParseInt(SplitOn(ws[5], '=')[1]) == Some(r.icmpSeq)
      && ParseDecimal(SplitOn(ws[7], '=')[1]) == Some(r.ms)
  {
  }

  predicate NoSpace(s: String) {
    forall k | 0 <= k < |s| :: !IsSpace(s[k])
  }

  lemma NoSpaceConcat(a: String, b: String)
    requires NoSpace(a) && NoSpace(b)
    ensures NoSpace(a + b)
  {
    forall k | 0 <= k < |a + b| ensures !IsSpace((a + b)[k]) {
      if k >= |a| { assert (a + b)[k] == b[k - |a|]; }
    }
  }

  lemma DigitsHaveNoSpace(s: String)
    requires AllDigits(s)
    ensures NoSpace(s) && '=' !in s
  {
    forall k | 0 <= k < |s| ensures !IsSpace(s[k]) && s[k] != '=' {
      assert IsDigit(s[k]);
    }
  }

  /** `key=value`, as `ping` prints `icmp_seq=3`, `ttl=64` and `time=12.345`. */
  function Assignment(key: String, value: String): String {
    key + ['='] + value
  }

  /** `"%d.%03d" % (whole, thousandths)`: a latency in milliseconds as `ping` prints it. */
  function LatencyText(whole: nat, thousandths: nat): String
    requires thousandths < 1000
  {
    ShowNat(whole) + ['.'] + Show3(thousandths)
  }

  /** A timestamp as `ping --apple-time` prints it: the clock and a fraction of a second. */
  function StampText(h: nat, m: nat, s: nat, frac: String): String
    requires h < 24 && m < 60 && s < 60
  {
    ClockText(h, m, s) + ['.'] + frac
  }

  lemma ShowIntHasNoSpace(i: int)
    ensures NoSpace(ShowInt(i)) && '=' !in ShowInt(i)
  {
    if i < 0 {
      DigitsHaveNoSpace(ShowNat(-i));
      NoSpaceConcat(['-'], ShowNat(-i));
    } else {
      DigitsHaveNoSpace(ShowNat(i));
    }
  }

  lemma LatencyTextHasNoSpace(whole: nat, thousandths: nat)
    requires thousandths < 1000
    ensures NoSpace(LatencyText(whole, thousandths)) && '=' !in LatencyText(whole, thousandths)
  {
    DigitsHaveNoSpace(ShowNat(whole));
    Show3Digits(thousandths);
    DigitsHaveNoSpace(Show3(thousandths));
    NoSpaceConcat(ShowNat(whole), ['.']);
    NoSpaceConcat(ShowNat(whole) + ['.'], Show3(thousandths));
  }

  lemma AssignmentIsWord(key: String, value: String)
    requires key != [] && NoSpace(key) && NoSpace(value)
    ensures IsWord(Assignment(key, value))
  {
    NoSpaceConcat(key, ['=']);
    NoSpaceConcat(key + ['='], value);
  }

  /** The field after the first `=` of `key=value` is `value`, when neither holds an `=`. */
  lemma ValueAfterEquals(key: String, value: String)
    requires '=' !in key && '=' !in value
    ensures |SplitOn(Assignment(key, value), '=')| == 2
    ensures SplitOn(Assignment(key, value), '=')[1] == value
  {
    assert JoinOn([key, value], '=') == Assignment(key, value);
    SplitOnJoinOn([key, value], '=');
  }

  /** The latency `ping` prints, `W.FFF`, is a plain word that `float()` reads as `W + FFF/1000`. */
  lemma PrintedLatency(whole: nat, thousandths: nat)
    requires thousandths < 1000
    ensures NoSpace(LatencyText(whole, thousandths)) && '=' !in LatencyText(whole, thousandths)
    ensures ParseDecimal(LatencyText(whole, thousandths)) == Some(whole as real + thousandths as real / 1000.0)
  {
    LatencyTextHasNoSpace(whole, thousandths);
    ParseDecimalShow(whole, thousandths);
  }

  /** The fields of a printed reply line, for a reply of `size` bytes. */
  function ReplyFields(h: nat, m: nat, s: nat, frac: String, size: nat, host: String, icmpSeq: int,
                       ttl: nat, latency: String): seq<String>
    requires h < 24 && m < 60 && s < 60
  {
    [StampText(h, m, s, frac), ShowNat(size), "bytes", "from", host + [':'],
     Assignment("icmp_seq", ShowInt(icmpSeq)), Assignment("ttl", ShowNat(ttl)),
     Assignment("time", latency), "ms"]
  }

  /** A reply line as `ping --apple-time` prints it:
      `HH:MM:SS.frac SIZE bytes from host: icmp_seq=N ttl=T time=W.FFF ms`. */
  function ReplyLine(h: nat, m: nat, s: nat, frac: String, size: nat, host: String, icmpSeq: int,
                     ttl: nat, latency: String): String
    requires h < 24 && m < 60 && s < 60
  {
    Unwords(ReplyFields(h, m, s, frac, size, host, icmpSeq, ttl, latency))
  }

  lemma StampIsWord(h: nat, m: nat, s: nat, frac: String)
    requires h < 24 && m < 60 && s < 60
    requires NoSpace(frac)
    ensures IsWord(StampText(h, m, s, frac))
  {
    ClockTextIsPlain(h, m, s);
    NoSpaceConcat(ClockText(h, m, s), ['.']);
    NoSpaceConcat(ClockText(h, m, s) + ['.'], frac);
  }

  /** The fixed words of a reply line, and the keys of its assignments. */
  lemma FixedWords()
    ensures IsWord("bytes") && IsWord("from") && IsWord("ms")
    ensures NoSpace("icmp_seq") && NoSpace("ttl") && NoSpace("time")
  {
  }

  lemma ReplyFieldsAreWords(h: nat, m: nat, s: nat, frac: String, size: nat, host: String,
                            icmpSeq: int, ttl: nat, latency: String)
    requires h < 24 && m < 60 && s < 60
    requires NoSpace(frac) && NoSpace(host) && NoSpace(latency)
    ensures var ws := ReplyFields(h, m, s, frac, size, host, icmpSeq, ttl, latency);
      forall k | 0 <= k < |ws| :: IsWord(ws[k])
  {
    var ws := ReplyFields(h, m, s, frac, size, host, icmpSeq, ttl, latency);
    assert IsWord(ws[0]) by { StampIsWord(h, m, s, frac); }
    assert IsWord(ws[1]) by { DigitsHaveNoSpace(ShowNat(size)); }
    assert IsWord(ws[2]) && IsWord(ws[3]) && IsWord(ws[8]) by { FixedWords(); }
    assert IsWord(ws[4]) by { NoSpaceConcat(host, [':']); }
    assert IsWord(ws[5]) by {
      FixedWords();
      ShowIntHasNoSpace(icmpSeq);
      AssignmentIsWord("icmp_seq", ShowInt(icmpSeq));
    }
    assert IsWord(ws[6]) by {
      FixedWords();
      DigitsHaveNoSpace(ShowNat(ttl));
      AssignmentIsWord("ttl", ShowNat(ttl));
    }
    assert IsWord(ws[7]) by {
      FixedWords();
      AssignmentIsWord("time", latency);
    }
  }

  /** `line_parser` splits a line of words joined by single spaces back into those words. */
  lemma ParseLineOfUnwords(ws: seq<String>, startHour: nat)
    requires forall k | 0 <= k < |ws| :: IsWord(ws[k])
    ensures ParseLine(Unwords(ws), startHour) == ParseFields(ws, startHour)
  {
    WordsOfUnwords(ws);
  }

  /** The fields of a line that `line_parser` accepts, read field by field. */
  lemma ParseFieldsOk(parts: seq<String>, startHour: nat, time: Instant, icmpSeq: int, ms: real)
    requires |parts| >= 8 && ParseTime(parts[0], startHour) == Ok(time)
    requires |SplitOn(parts[5], '=')| >= 2 && ParseInt(SplitOn(parts[5], '=')[1]) == Some(icmpSeq)
    requires |SplitOn(parts[7], '=')| >= 2 && ParseDecimal(SplitOn(parts[7], '=')[1]) == Some(ms)
    ensures ParseFields(parts, startHour) == Ok(Reading(time, icmpSeq, ms))
  {
  }

  /** The three fields `line_parser` reads, as `ping` prints them, give back the printed values. */
  lemma ParsePrintedFields(parts: seq<String>, h: nat, m: nat, s: nat, frac: String, icmpSeq: int,
                           latency: String, ms: real, startHour: nat)
    requires h < 24 && m < 60 && s < 60
    requires |parts| >= 8 && parts[0] == StampText(h, m, s, frac)
    requires parts[5] == Assignment("icmp_seq", ShowInt(icmpSeq))
    requires parts[7] == Assignment("time", latency) && '=' !in latency
    requires ParseDecimal(latency) == Some(ms)
    ensures ParseFields(parts, startHour) == Ok(Reading(Instant(if h < startHour then 1 else 0, h, m, s), icmpSeq, ms))
  {
    ParseTimeOfClockText(h, m, s, frac, startHour);
    ShowIntHasNoSpace(icmpSeq);
    ValueAfterEquals("icmp_seq", ShowInt(icmpSeq));
    ParseIntShowInt(icmpSeq);
    ValueAfterEquals("time", latency);
    ParseFieldsOk(parts, startHour, Instant(if h < startHour then 1 else 0, h, m, s), icmpSeq, ms);
  }

  /** `line_parser` reads back what `ping` printed, whatever the reply's size: the clock
      anchored on the start date or the next day, the sequence number, and the latency for any
      latency text `float()` accepts (the `W.FFF` that `ping` prints among them, by
      `PrintedLatency`). */
  lemma ParseReplyLine(h: nat, m: nat, s: nat, frac: String, size: nat, host: String, icmpSeq: int,
                       ttl: nat, latency: String, ms: real, startHour: nat)
    requires h < 24 && m < 60 && s < 60
    requires NoSpace(frac) && NoSpace(host) && NoSpace(latency) && '=' !in latency
    requires ParseDecimal(latency) == Some(ms)
    ensures ParseLine(ReplyLine(h, m, s, frac, size, host, icmpSeq, ttl, latency), startHour)
         == Ok(Reading(Instant(if h < startHour then 1 else 0, h, m, s), icmpSeq, ms))
  {
    var ws := ReplyFields(h, m, s, frac, size, host, icmpSeq, ttl, latency);
    var t := Instant(if h < startHour then 1 else 0, h, m, s);
    ReplyFieldsAreWords(h, m, s, frac, size, host, icmpSeq, ttl, latency);
    ParseLineOfUnwords(ws, startHour);
    assert ParseFields(ws, startHour) == Ok(Reading(t, icmpSeq, ms)) by {
      ParsePrintedFields(ws, h, m, s, frac, icmpSeq, latency, ms, startHour);
    }
  }

  // ---------------------------------------------------------------- analyse: the two comprehensions

  predicate IsTimeout(line: String) {
    StartsWith(line, TimeoutPrefix)
  }

  /** A line the `pings` comprehension parses: non-empty and not a timeout. */
  predicate IsReply(line: String) {
    line != [] && !IsTimeout(line)
  }

  /** `int(line.split()[-1])`: the sequence number of a timeout line. */
  function TimeoutSeq(line: String): Result<int> {
    var ws := Words(line);
    if ws == [] then Err(IndexError)
    else
      match ParseInt(ws[|ws| - 1])
      case None => Err(ValueError)
      case Some(n) => Ok(n)
  }

  function TimeoutFields(icmpSeq: int): seq<String> {
    ["Request", "timeout", "for", "icmp_seq", ShowInt(icmpSeq)]
  }

  /** `"Request timeout for icmp_seq N"`, as `ping` prints it for a lost probe. */
  function TimeoutLine(icmpSeq: int): String {
    Unwords(TimeoutFields(icmpSeq))
  }

  lemma TimeoutLineIsTimeout(icmpSeq: int)
    ensures IsTimeout(TimeoutLine(icmpSeq))
  {
    var ws := TimeoutFields(icmpSeq);
    var rest := Unwords(ws[2..]);
    assert ws[2..][0] == "for";
    assert Unwords(ws[1..]) == "timeout" + [' '] + rest;
    assert TimeoutLine(icmpSeq) == TimeoutPrefix + ([' '] + rest);
    assert (TimeoutPrefix + ([' '] + rest))[..|TimeoutPrefix|] == TimeoutPrefix;
  }

  /** The timeout line `ping` prints is routed to `missed` and gives back its sequence number. */
  lemma ParseTimeoutLine(icmpSeq: int)
    ensures IsTimeout(TimeoutLine(icmpSeq)) && TimeoutSeq(TimeoutLine(icmpSeq)) == Ok(icmpSeq)
  {
    TimeoutLineIsTimeout(icmpSeq);
    var ws := TimeoutFields(icmpSeq);
    ShowIntHasNoSpace(icmpSeq);
    assert forall k | 0 <= k < |ws| :: IsWord(ws[k]);
    WordsOfUnwords(ws);
    ParseIntShowInt(icmpSeq);
  }

  /** `[x for x in s if keep(x)]` */
  function Filter<T>(s: seq<T>, keep: T -> bool): (r: seq<T>)
    ensures |r| <= |s|
    ensures forall k | 0 <= k < |r| :: keep(r[k])
  {
    if s == [] then [] else (if keep(s[0]) then [s[0]] else []) + Filter(s[1..], keep)
  }

  /** The kept elements are exactly the elements of `s` that `keep` accepts. */
  lemma {:induction false} FilterMembers<T>(s: seq<T>, keep: T -> bool)
    ensures forall x :: x in Filter(s, keep) <==> x in s && keep(x)
  {
    if s != [] {
      FilterMembers(s[1..], keep);
      assert s == [s[0]] + s[1..];
    }
  }

  /** `Filter` keeps the order of `s`: filtering a concatenation filters each part. */
  lemma {:induction false} FilterAppend<T>(a: seq<T>, b: seq<T>, keep: T -> bool)
    ensures Filter(a + b, keep) == Filter(a, keep) + Filter(b, keep)
  {
    if a != [] {
      assert (a + b)[1..] == a[1..] + b;
      FilterAppend(a[1..], b, keep);
    } else {
      assert a + b == b;
    }
  }

  /** `[parse(x) for x in s]`: Python evaluates it from the front, so the first element `parse`
      refuses decides the exception. */
  function ParseAll<T>(s: seq<String>, parse: String -> Result<T>): Result<seq<T>> {
    if s == [] then Ok([])
    else
      match parse(s[0])
      case Err(e) => Err(e)
      case Ok(v) =>
        var rest := ParseAll(s[1..], parse);
        if rest.Err? then rest else Ok([v] + rest.value)
  }

  /** The comprehension succeeds exactly when `parse` accepts every element, and then holds
      their values in order; otherwise it raises what `parse` raises on the first element it
      refuses. */
  lemma {:induction false} ParseAllSpec<T>(s: seq<String>, parse: String -> Result<T>)
    ensures ParseAll(s, parse).Ok? <==> forall k | 0 <= k < |s| :: parse(s[k]).Ok?
    ensures ParseAll(s, parse).Ok? ==>
      |ParseAll(s, parse).value| == |s| && forall k | 0 <= k < |s| :: parse(s[k]) == Ok(ParseAll(s, parse).value[k])
    ensures ParseAll(s, parse).Err? ==>
      exists k | 0 <= k < |s| :: parse(s[k]) == Err(ParseAll(s, parse).error) && forall j | 0 <= j < k :: parse(s[j]).Ok?
  {
    if s != [] {
      ParseAllSpec(s[1..], parse);
      assert forall k | 1 <= k < |s| :: s[k] == s[1..][k - 1];
      var r := ParseAll(s, parse);
      var rest := ParseAll(s[1..], parse);
      if parse(s[0]).Ok? && rest.Err? {
        var k :| 0 <= k < |s[1..]| && parse(s[1..][k]) == Err(rest.error)
                 && forall j | 0 <= j < k :: parse(s[1..][j]).Ok?;
        assert parse(s[k + 1]) == Err(r.error);
        forall j | 0 <= j < k + 1 ensures parse(s[j]).Ok? {
          if j > 0 { assert s[j] == s[1..][j - 1]; }
        }
      }
    }
  }

  /** The lines the `missed` comprehension reads, in body order. */
  function TimeoutLines(body: seq<String>): seq<String> {
    Filter(body, IsTimeout)
  }

  /** The lines the `pings` comprehension reads, in body order. */
  function ReplyLines(body: seq<String>): seq<String> {
    Filter(body, IsReply)
  }

  function BlankCount(body: seq<String>): nat {
    if body == [] then 0 else (if body[0] == [] then 1 else 0) + BlankCount(body[1..])
  }

  /** Every line of the body is read by exactly one of the two comprehensions, or by none when
      it is empty. */
  lemma {:induction false} LinesAreRoutedOnce(body: seq<String>)
    ensures |TimeoutLines(body)| + |ReplyLines(body)| + BlankCount(body) == |body|
    ensures forall k | 0 <= k < |body| :: !(IsTimeout(body[k]) && IsReply(body[k]))
  {
    if body != [] {
      LinesAreRoutedOnce(body[1..]);
      assert !StartsWith([], TimeoutPrefix);
    }
  }

  /** `[int(line.split()[-1]) for line in body if line.startswith("Request timeout")]` */
  function Missed(body: seq<String>): Result<seq<int>> {
    ParseAll(TimeoutLines(body), TimeoutSeq)
  }

  /** `missed` holds the sequence numbers of the timeout lines, in body order; the first timeout
      line whose last field `int()` refuses raises. */
  lemma MissedSpec(body: seq<String>)
    ensures Missed(body).Ok? <==> forall k | 0 <= k < |body| :: IsTimeout(body[k]) ==> TimeoutSeq(body[k]).Ok?
    ensures Missed(body).Ok? ==> |Missed(body).value| == |TimeoutLines(body)|
    ensures Missed(body).Ok? ==>
      forall k | 0 <= k < |Missed(body).value| :: TimeoutSeq(TimeoutLines(body)[k]) == Ok(Missed(body).value[k])
  {
    ParseAllSpec(TimeoutLines(body), TimeoutSeq);
    FilterMembers(body, IsTimeout);
    assert forall k | 0 <= k < |body| :: body[k] in body;
  }

  /** `[line_parser(line, start_time) for line in body if line and not line.startswith(...)]` */
  function Pings(body: seq<String>, startHour: nat): Result<seq<Reading>> {
    ParseAll(ReplyLines(body), line => ParseLine(line, startHour))
  }

  /** `pings` holds one sample per reply line, in body order; the first reply line `line_parser`
      refuses raises. */
  lemma PingsSpec(body: seq<String>, startHour: nat)
    ensures Pings(body, startHour).Ok? <==>
      forall k | 0 <= k < |body| :: IsReply(body[k]) ==> ParseLine(body[k], startHour).Ok?
    ensures Pings(body, startHour).Ok? ==> |Pings(body, startHour).value| == |ReplyLines(body)|
    ensures Pings(body, startHour).Ok? ==>
      forall k | 0 <= k < |Pings(body, startHour).value| ::
        ParseLine(ReplyLines(body)[k], startHour) == Ok(Pings(body, startHour).value[k])
  {
    ParseAllSpec(ReplyLines(body), line => ParseLine(line, startHour));
    FilterMembers(body, IsReply);
    assert forall k | 0 <= k < |body| :: body[k] in body;
  }

  // ---------------------------------------------------------------- analyse: the jitter loop

  function Abs(x: real): real {
    if x < 0.0 then -x else x
  }

  /** Pair `(p[i], p[i+1])` is back to back: the second reply's sequence number directly follows
      the first's. */
  predicate Consecutive(p: seq<Reading>, i: int) {
    0 <= i && i + 1 < |p| && p[i + 1].icmpSeq == p[i].icmpSeq + 1
  }

  /** The jitter value of a back-to-back pair: the first's timestamp and sequence number, and the
      absolute difference of the two latencies. */
  function JitterEntry(a: Reading, b: Reading): Reading {
    Reading(a.time, a.icmpSeq, Abs(b.ms - a.ms))
  }

  /** `len(range(len(pings) - 1))` */
  function PairCount(p: seq<Reading>): nat {
    if |p| == 0 then 0 else |p| - 1
  }

  /** The jitter list after the loop has looked at the first `n` adjacent pairs. */
  function JitterUpTo(p: seq<Reading>, n: nat): seq<Reading>
    requires n <= PairCount(p)
  {
    if n == 0 then []
    else JitterUpTo(p, n - 1) + (if Consecutive(p, n - 1) then [JitterEntry(p[n - 1], p[n])] else [])
  }

  /** The jitter series of `analyse`, over all adjacent pairs. */
  function JitterOf(p: seq<Reading>): seq<Reading> {
    JitterUpTo(p, PairCount(p))
  }

  /** The indices `i` of the back-to-back pairs `(p[i], p[i+1])` among the first `n`, in
      increasing order. */
  ghost function OriginsUpTo(p: seq<Reading>, n: nat): seq<nat>
    requires n <= PairCount(p)
  {
    if n == 0 then [] else OriginsUpTo(p, n - 1) + (if Consecutive(p, n - 1) then [n - 1] else [])
  }

  ghost function Origins(p: seq<Reading>): seq<nat> {
    OriginsUpTo(p, PairCount(p))
  }

  lemma {:induction false} OriginsUpToSound(p: seq<Reading>, n: nat)
    requires n <= PairCount(p)
    ensures |JitterUpTo(p, n)| == |OriginsUpTo(p, n)| <= n
    ensures forall k | 0 <= k < |OriginsUpTo(p, n)| ::
      OriginsUpTo(p, n)[k] < n && Consecutive(p, OriginsUpTo(p, n)[k])
      && JitterUpTo(p, n)[k] == JitterEntry(p[OriginsUpTo(p, n)[k]], p[OriginsUpTo(p, n)[k] + 1])
  {
    if n > 0 {
      OriginsUpToSound(p, n - 1);
    }
  }

  lemma {:induction false} OriginsUpToOrdered(p: seq<Reading>, n: nat)
    requires n <= PairCount(p)
    ensures forall k | 0 <= k < |OriginsUpTo(p, n)| :: OriginsUpTo(p, n)[k] < n
    ensures forall k, l | 0 <= k < l < |OriginsUpTo(p, n)| :: OriginsUpTo(p, n)[k] < OriginsUpTo(p, n)[l]
  {
    if n > 0 {
      OriginsUpToOrdered(p, n - 1);
    }
  }

  lemma {:induction false} OriginsUpToComplete(p: seq<Reading>, n: nat)
    requires n <= PairCount(p)
    ensures forall i | 0 <= i < n :: Consecutive(p, i) ==> i in OriginsUpTo(p, n)
  {
    if n > 0 {
      OriginsUpToComplete(p, n - 1);
    }
  }

  /** What `analyse` promises of `jitter`: the k-th entry comes from the k-th back-to-back pair
      `(p[i], p[i+1])` in increasing `i`, carries `p[i]`'s timestamp and sequence number and the
      non-negative latency difference; every back-to-back pair yields an entry and a pair across
      a sequence gap yields none. So there are at most `len(pings) - 1` entries. */
  lemma JitterFromBackToBackPairs(p: seq<Reading>)
    ensures |JitterOf(p)| == |Origins(p)| <= PairCount(p)
    ensures forall k | 0 <= k < |Origins(p)| ::
      var i := Origins(p)[k];
      Consecutive(p, i) && JitterOf(p)[k] == JitterEntry(p[i], p[i + 1])
      && JitterOf(p)[k].time == p[i].time && JitterOf(p)[k].icmpSeq == p[i].icmpSeq
      && JitterOf(p)[k].ms == Abs(p[i + 1].ms - p[i].ms) && JitterOf(p)[k].ms >= 0.0
    ensures forall k, l | 0 <= k < l < |Origins(p)| :: Origins(p)[k] < Origins(p)[l]
    ensures forall i | 0 <= i < |p| - 1 :: Consecutive(p, i) <==> i in Origins(p)
  {
    OriginsUpToSound(p, PairCount(p));
    OriginsUpToOrdered(p, PairCount(p));
    OriginsUpToComplete(p, PairCount(p));
  }

  /** Sequence numbers 1, 2, 4, 5 with latencies 10, 12, 9, 20 give exactly two jitter values:
      2 at the first reply and 11 at the third; the gap from 2 to 4 gives none. */
  lemma JitterAcrossGapExample(t1: Instant, t2: Instant, t4: Instant, t5: Instant)
    ensures JitterOf([Reading(t1, 1, 10.0), Reading(t2, 2, 12.0), Reading(t4, 4, 9.0), Reading(t5, 5, 20.0)])
         == [Reading(t1, 1, 2.0), Reading(t4, 4, 11.0)]
  {
    var p := [Reading(t1, 1, 10.0), Reading(t2, 2, 12.0), Reading(t4, 4, 9.0), Reading(t5, 5, 20.0)];
    assert JitterUpTo(p, 1) == [Reading(t1, 1, 2.0)];
    assert JitterUpTo(p, 2) == [Reading(t1, 1, 2.0)];
  }

  /** The jitter loop of `analyse`: `for i in range(len(pings) - 1)`, appending an entry for
      each back-to-back pair. */
  method DeriveJitter(pings: seq<Reading>) returns (jitter: seq<Reading>)
    ensures jitter == JitterOf(pings)
  {
    jitter := [];
    var n := |pings| - 1;
    var i := 0;
    while i < n
      invariant 0 <= i <= PairCount(pings)
      invariant jitter == JitterUpTo(pings, i)
    {
      var cur, next := pings[i], pings[i + 1];
      if next.icmpSeq == cur.icmpSeq + 1 {
        jitter := jitter + [Reading(cur.time, cur.icmpSeq, Abs(next.ms - cur.ms))];
      }
      i := i + 1;
    }
  }

  // ---------------------------------------------------------------- analyse

  /** What `analyse` returns, in its own order `(pings, missed, jitter)`. */
  datatype Analysis = Analysis(pings: seq<Reading>, missed: seq<int>, jitter: seq<Reading>)

  /** `analyse(body, start_time)`: `missed` is built first, so a bad timeout line raises before
      a bad reply line. */
  function AnalysisOf(body: seq<String>, startHour: nat): Result<Analysis> {
    match Missed(body)
    case Err(e) => Err(e)
    case Ok(missed) =>
      match Pings(body, startHour)
      case Err(e) => Err(e)
      case Ok(pings) => Ok(Analysis(pings, missed, JitterOf(pings)))
  }

  /** A line `analyse` accepts: a timeout line with a numeric last field, a reply line
      `line_parser` accepts, or an empty line (which both comprehensions skip). */
  predicate LineParses(line: String, startHour: nat) {
    if IsTimeout(line) then TimeoutSeq(line).Ok?
    else if line != [] then ParseLine(line, startHour).Ok?
    else true
  }

  /** `analyse` raises exactly when some line of the body is malformed; otherwise `missed`
      holds the timeout numbers, `pings` one sample per reply line and `jitter` is derived from
      exactly those samples. */
  lemma AnalysisSucceeds(body: seq<String>, startHour: nat)
    ensures AnalysisOf(body, startHour).Ok? <==> forall k | 0 <= k < |body| :: LineParses(body[k], startHour)
    ensures AnalysisOf(body, startHour).Ok? ==>
      var a := AnalysisOf(body, startHour).value;
      Missed(body) == Ok(a.missed) && Pings(body, startHour) == Ok(a.pings) && a.jitter == JitterOf(a.pings)
      && |a.missed| == |TimeoutLines(body)| && |a.pings| == |ReplyLines(body)|
  {
    MissedSpec(body);
    PingsSpec(body, startHour);
    assert forall k | 0 <= k < |body| :: LineParses(body[k], startHour) <==>
      ((IsTimeout(body[k]) ==> TimeoutSeq(body[k]).Ok?) && (IsReply(body[k]) ==> ParseLine(body[k], startHour).Ok?));
  }

  /** A body that `analyse` accepts stays accepted when cut to a prefix, and a body it refuses
      stays refused when lines are added: the body only grows during a session. */
  lemma AnalysisOfPrefix(body: seq<String>, more: seq<String>, startHour: nat)
    ensures AnalysisOf(body + more, startHour).Ok? ==> AnalysisOf(body, startHour).Ok?
  {
    AnalysisSucceeds(body, startHour);
    AnalysisSucceeds(body + more, startHour);
    if AnalysisOf(body + more, startHour).Ok? {
      forall k | 0 <= k < |body| ensures LineParses(body[k], startHour) {
        assert body[k] == (body + more)[k];
      }
    }
  }

  /** `analyse(body, start_time)`: the two comprehensions, then the jitter loop. */
  method Analyse(body: seq<String>, startHour: nat) returns (r: Result<Analysis>)
    ensures r == AnalysisOf(body, startHour)
  {
    var missed := Missed(body);
    if missed.Err? {
      return Err(missed.error);
    }
    var pings := Pings(body, startHour);
    if pings.Err? {
      return Err(pings.error);
    }
    var jitter := DeriveJitter(pings.value);
    return Ok(Analysis(pings.value, missed.value, jitter));
  }
}
