# jitterpy: the ping parser, the jitter series and the segmenter, in Dafny

jitter.py runs `ping --apple-time host`. It reads every line `ping` prints after its header and
strips it, skipping blank lines. Every line before the first one that starts with `---` (the
`--- host ping statistics ---` line) is kept as the *body*: reply lines and `Request timeout`
lines alike. That divider line and every later line are kept as *statistics*. At regular points, and once more at the end, it saves
a snapshot `(pings, jitter, missed)` of `analyse(body)`:

- `missed` holds the sequence numbers of the `Request timeout` lines;
- `pings` holds one `(timestamp, icmp_seq, latency)` sample per reply line;
- `jitter` holds, for each pair of adjacent samples with consecutive sequence numbers, the
  absolute latency difference.

analysis.py's `get_segments` cuts such a series into buckets of samples that lie within `span`
seconds of a bucket's first sample. Each bucket is paired with its width.

The model has five modules:

- `Failures` (failures.dfy): the Python exceptions the core can raise (IndexError, ValueError,
  ZeroDivisionError), `Option` and `Result`.
- `Text` (text.dfy): the Python string operations the parser relies on, written out:
  - `str.isspace` on one character;
  - `strip()`, `split()`, `split(sep)`, `startswith`;
  - `int()` and `float()` on the decimal forms they accept, with underscores allowed between
    digits;
  - the printing of numbers, used to state round trips.
- `Ping` (ping.dfy): `parse_time`, `line_parser` and `analyse`. The two comprehensions of
  `analyse` are functions. Its jitter loop is the method `DeriveJitter`, proved against the
  function `JitterOf`.
- `Session` (session.dfy): the loop of `main`, as the method `RunSession`. Each pass is the
  method `Consume`. Both are proved against the functions `Step`, `Run` and `SessionOf`, and
  the lemmas describe what those compute. Each `pickle.dump` is an append to the sequence of
  snapshots the method returns.
- `Segments` (segments.dfy): `get_segments` as the method `GetSegments`. Its loop is proved
  against the function `Partition`.

Time and numbers are modelled as follows:

- Timestamps are `Instant(day, hour, minute, second)`, where `day` counts days after the
  session's start date. Naive `datetime` arithmetic is exact in seconds, so `Seconds` turns a
  difference of timestamps into a difference of integers.
- Latencies are exact decimals (`real`).
- The session's start time enters only through its hour, `startHour`.
- The lines `ping` prints, after its header, are a parameter `lines`.

Three behaviours of the code differ from what a reader might expect, and the model follows the
code in each:

- A reply is moved to the next day only when its hour is smaller than the hour at which the
  session started (jitter.py:31-34). It is not moved when its clock goes back relative to the
  previous reply. So a session may hold timestamps that decrease (`Ping.StartHourRule`), and
  at most one day is ever added.
- A malformed line in the body is not skipped. The next `analyse` raises, and that ends
  `main` (`Ping.AnalysisSucceeds`, `Session.SessionOutcome`).
- Snapshots are counted by the raw `enumerate` index of the line, blank lines included, not
  by the number of accepted lines (`Session.BlankLineExample`).

## Model

| member | source | states |
|---|---|---|
| Text.StripSpec | jitter.py:97-98 | `Strip`, the model of `strip()`, leaves no whitespace at either end; it gives the empty line exactly when the line is all whitespace; it leaves a line without whitespace at its ends unchanged |
| Text.StripIsSlice | jitter.py:97 | the stripped line is the contiguous part of the line that starts after its leading whitespace |
| Text.StripDropsSpaceOnly | jitter.py:97 | what `strip()` cuts off after the kept text is whitespace only |
| Text.Words | jitter.py:40 | every piece of `split()` is a non-empty run of non-whitespace; there are no pieces exactly when the line is all whitespace |
| Text.WordsAfterWord | jitter.py:40 | a word followed by whitespace or by nothing is the first piece `split()` returns |
| Text.WordsOfUnwords | jitter.py:40 | `split()` of words joined by single spaces gives back those words |
| Text.IndexOf | jitter.py:30 | the index of the first occurrence of the separator: it holds the separator, and nothing before it does |
| Text.IndexOfUnique | jitter.py:30 | the first occurrence is determined by those two conditions |
| Text.SplitOnSpec | jitter.py:42-43 | `SplitOn`, the model of `split(c)`, gives at least one piece, and exactly one piece when `c` does not occur; no piece contains `c`; joining the pieces with `c` gives back the text |
| Text.SplitOnJoinOn | jitter.py:42-43 | splitting pieces joined by `c` gives back the pieces, when none of them contains `c` |
| Text.SplitOnFirst | jitter.py:30 | the first piece of `split('.')` is the text before the first `.` |
| Text.GroupDigits | jitter.py:42 | a digit group with its underscores dropped is a non-empty string of digits |
| Text.AllDigitsIsDigitGroup | jitter.py:42 | a non-empty string of digits is a digit group, and its value is its decimal value |
| Text.DigitsFraction | jitter.py:43 | the digits after a decimal point are worth at least 0 and less than 1 |
| Text.DigitsValueShowNat | jitter.py:42 | the printed digits of `n` are worth `n` |
| Text.ParseIntShowInt | jitter.py:42 | `ParseInt`, the model of `int()`, reads the printed form back: `int(str(i)) == i` for every integer, negative ones included (CPython's limit of 4300 digits on `int()` and `str()` is not modelled; see "## Left out") |
| Text.Show2Value | jitter.py:30 | `int("%02d" % n) == n` for `n < 100` |
| Text.Show3Digits | jitter.py:43 | `"%03d" % n` for `n < 1000` is three digits worth `n` |
| Text.Show3Value | jitter.py:43 | the three digits of `"%03d" % n`, read after a decimal point, are worth `n / 1000` |
| Text.ParseDecimalAt | jitter.py:43 | `float()` of a token whose first `.` follows only digits reads the text before and after that point |
| Text.PointValue | jitter.py:43 | `float()` of digits, a point and a digit group is the whole part plus the fraction |
| Text.ParseDecimalShow | jitter.py:43 | `ParseDecimal`, the model of `float()`, reads the printed latency back: `float("%d.%03d" % (w, f)) == w + f / 1000` |
| Ping.ParseTime | jitter.py:29-36 | `parse_time` succeeds exactly when the clock has three integer fields within range, and raises otherwise, with ValueError in the model (Python raises OverflowError for a field outside the C `int` range; see "## Left out"); it keeps that hour, minute and second; the day is 1 exactly when the hour is earlier than the start hour, and 0 otherwise |
| Ping.ParseTimeIgnoresFraction | jitter.py:30 | whatever follows the first `.` of the timestamp does not change the result |
| Ping.ClockTextFields | jitter.py:30 | `split(':')` of a printed clock gives its three two-digit fields |
| Ping.ParseClockOfClockText | jitter.py:30 | `ParseClock`, the `split(':')` and three `int()` calls of `parse_time`: a printed clock reads back as the same hour, minute and second |
| Ping.ParseTimeOfClockText | jitter.py:29-36 | a printed clock with any fraction reads back as that time, on the start date or on the next day when its hour is earlier than the start hour |
| Ping.StartHourRule | jitter.py:31-35 | the next-day rule compares with the start hour, so timestamps read in order can decrease: with a start hour of 10, 09:59:59 lands on the next day and a later 11:00:00 on the start date |
| Ping.ParseLine | jitter.py:39-44 | a line with fewer than eight fields is refused |
| Ping.ParseFields | jitter.py:40-44 | the fields after `split()`: fewer than eight are refused |
| Ping.ParseLineFields | jitter.py:39-44 | `line_parser` succeeds exactly when there are at least eight fields, fields 5 and 7 hold an `=`, and the clock, `split('=')[1]` of field 5 (the text between its first and second `=`) as an integer and `split('=')[1]` of field 7 as a float all parse; its result is made of exactly those three values |
| Ping.ValueAfterEquals | jitter.py:42-43 | `split('=')[1]` of `key=value` is `value` when neither part holds an `=` |
| Ping.PrintedLatency | jitter.py:43 | the latency `W.FFF` that `ping` prints is a single word without `=`, and `float()` reads it as `W + FFF/1000` |
| Ping.ReplyFieldsAreWords | jitter.py:40 | every field of a printed reply line is a word |
| Ping.ParseLineOfUnwords | jitter.py:40 | `line_parser` of words joined by single spaces reads those words as its fields |
| Ping.ParsePrintedFields | jitter.py:41-43 | the fields of a printed reply give back the anchored clock time, the sequence number and the latency |
| Ping.ParseReplyLine | jitter.py:39-44 | `line_parser` of a reply line as `ping` prints it, whatever its byte count, returns the printed time, on the start date or on the next day, the printed sequence number and the latency |
| Ping.TimeoutLineIsTimeout | jitter.py:48 | the line `ping` prints for a lost probe starts with `Request timeout` |
| Ping.ParseTimeoutLine | jitter.py:48 | that line's last field reads back as its sequence number |
| Ping.Filter | jitter.py:48-49 | a comprehension's `if` keeps no more elements than it reads, and only ones that pass |
| Ping.FilterMembers | jitter.py:48-49 | the kept elements are exactly those of the input that pass |
| Ping.FilterAppend | jitter.py:48-49 | keeping from a concatenation keeps from each part in turn, so the order of the input is kept |
| Ping.ParseAllSpec | jitter.py:48-49 | a list comprehension succeeds exactly when each element parses, and then holds their values in order and one per element; otherwise it raises what the first refused element raises |
| Ping.LinesAreRoutedOnce | jitter.py:48-49 | the timeout lines, the reply lines and the empty lines together count every body line once, and no line is both a timeout line and a reply line |
| Ping.MissedSpec | jitter.py:48 | `Missed`, the first comprehension (each line read by `TimeoutSeq`): `missed` succeeds exactly when every timeout line has an integer last field; it then holds, in body order, one sequence number per timeout line |
| Ping.PingsSpec | jitter.py:49 | `Pings`, the second comprehension: `pings` succeeds exactly when `line_parser` accepts every reply line; it then holds one sample per reply line, in body order |
| Ping.OriginsUpToSound | jitter.py:51-56 | after `n` passes of the loop, each jitter entry comes from a back-to-back pair among the first `n` pairs and is that pair's entry |
| Ping.OriginsUpToOrdered | jitter.py:51-56 | the pairs the entries come from are in increasing order |
| Ping.OriginsUpToComplete | jitter.py:51-56 | every back-to-back pair among the first `n` gives an entry |
| Ping.JitterFromBackToBackPairs | jitter.py:51-56 | `JitterOf`, the list the loop builds (`JitterUpTo` after `n` passes): there are at most `len(pings) - 1` jitter entries, one per pair `(pings[i], pings[i+1])` whose sequence numbers are consecutive, in increasing `i`, and none for any other pair; each carries `pings[i]`'s timestamp and sequence number and the latency difference `abs(next - cur)`, which is non-negative |
| Ping.JitterAcrossGapExample | jitter.py:55-56 | sequence numbers 1, 2, 4, 5 with latencies 10, 12, 9, 20 give exactly `[(t1, 1, 2), (t4, 4, 11)]` |
| Ping.DeriveJitter | jitter.py:51-56 | the jitter loop computes `JitterOf(pings)` |
| Ping.AnalysisSucceeds | jitter.py:47-58 | `AnalysisOf`, the value of `analyse`: it raises exactly when some body line is a timeout line without an integer last field, or a non-empty other line that `line_parser` refuses; otherwise it returns `missed` and `pings` as above and the jitter of exactly those samples |
| Ping.AnalysisOfPrefix | jitter.py:47-58 | when `analyse` accepts a body, it accepts every prefix of that body |
| Ping.Analyse | jitter.py:47-58 | computes `AnalysisOf(body)`: the result, or the exception of the first comprehension that raises |
| Segments.BucketEnd | analysis.py:37-43 | a bucket, found by scanning forward with `BucketEndFrom`, holds at least its first sample, and no more samples than remain |
| Segments.BucketEndSpec | analysis.py:38-43 | every sample of a bucket is less than `span` seconds after the bucket's first sample; the sample that closes the bucket, if any, is at least `span` seconds after it |
| Segments.BucketEndUnique | analysis.py:38-43 | those two conditions determine where the bucket ends |
| Segments.PartitionCount | analysis.py:43-46 | there is at least one segment exactly when there is at least one sample, and never more segments than samples |
| Segments.PartitionSamples | analysis.py:37-46 | `Partition`, the segments of a non-empty series: concatenating the buckets in order gives back the series: no sample is lost, duplicated or reordered |
| Segments.PartitionBuckets | analysis.py:38-45 | every bucket is non-empty, and its samples are less than `span` seconds after its first one; the first sample of each later bucket is at least `span` seconds after the first sample of the bucket before it; each `Width` is the seconds from first to last sample plus one |
| Segments.PartitionWidths | analysis.py:39-45 | over non-decreasing timestamps, every width is at least 1 and less than `span + 1` |
| Segments.TwentyFiveSamplesExample | analysis.py:33-47 | 25 samples one second apart with a span of 10 give three buckets, of 10, 10 and 5 samples and widths 10, 10 and 5 |
| Segments.ScanStart | analysis.py:34-37 | the loop starts with no segments, an empty bucket and `start` the first timestamp |
| Segments.ScanExtend | analysis.py:38-44 | a sample less than `span` seconds after `start` joins the open bucket, and the loop's invariant is kept |
| Segments.ScanClose | analysis.py:38-44 | a sample at least `span` seconds after `start` closes the open bucket and opens the next one at that sample, and the invariant is kept |
| Segments.ScanEmpty | analysis.py:38-39 | with an empty open bucket, a sample closes it only when `span` is not positive |
| Segments.ScanEnd | analysis.py:45-46 | when the samples run out, the open bucket is the last segment of the partition |
| Segments.GetSegments | analysis.py:33-47 | `get_segments` raises IndexError (as `SegmentsOf` does) on an empty series and on a span that is not positive, and otherwise returns `Partition(series, span)` |
| Session.Kept | jitter.py:97-99 | the stripped non-blank lines: no more of them than raw lines, and none empty |
| Session.FirstDivider | jitter.py:100-101 | the index of the first line starting with `---`: no line before it starts so, and the line there does |
| Session.Consume | jitter.py:96-128 | one pass of the loop updates `body`, `stats`, `in_body` and the snapshots as `Step` says, and returns the exception it raises, if any |
| Session.RunSession | jitter.py:95-135 | the loop, then the final `analyse` and write, produce `SessionOf(lines)`: the snapshots in order, the statistics lines and how `main` ends |
| Session.KeptStep | jitter.py:96-128 | one more raw line: a blank one changes nothing; otherwise its stripped text joins the body while no divider has been kept and is no divider, and joins the statistics otherwise |
| Session.Routing | jitter.py:95-128 | `Run` is the loop, pass by pass through `Step` (a blank line is skipped, a body line goes through `AddToBody`): while nothing has raised, `body` is every kept line before the first divider and `stats` is that divider and every kept line after it, both in order; `in_body` is true exactly while no divider has been kept, so it never returns to true |
| Session.FailureSticks | jitter.py:96-128 | once an exception has been raised, the rest of the output changes nothing |
| Session.BodyGrows | jitter.py:112 | the body only grows: an earlier body is a prefix of every later one |
| Session.Snapshots | jitter.py:114-126 | while nothing has raised, the snapshots written are one per body line whose index `i` has `(i+1) % dump_freq == 0`; each is `analyse` of the body as it stood at that line, and the body sizes grow strictly |
| Session.RefusalPersists | jitter.py:114-130 | a body that is refused stays refused as lines are added |
| Session.StepFailure | jitter.py:114-115 | a pass raises only when the body it has just extended is refused |
| Session.ZeroDumpFreq | jitter.py:114 | with a `dump_freq` of 0 the loop raises ZeroDivisionError exactly when there is a body line, at the first one: the body then holds that one line, and nothing has been written |
| Session.LoopFailure | jitter.py:96-130 | the loop raises only on a body that the final `analyse` would also refuse |
| Session.LoggedDump | jitter.py:114-126 | a write of `analyse` of a longer body extends the log of snapshots, each still `analyse` of the body at its size |
| Session.StepFailureWritesNothing | jitter.py:114-126 | a pass that raises writes no snapshot |
| Session.WrittenBeforeFailure | jitter.py:95-128 | the loop stops after some first `m` lines, the next one raising if there is one; `m` is all of the output exactly when nothing raises, and what was written by the end is what was written after those `m` lines |
| Session.FailedSessionSnapshots | jitter.py:95-135 | the snapshots a session that ends with an exception has written are those of `DumpSizes` for the part of the output the loop got through, each `analyse` of the body as it stood then; the save file holds the last of them |
| Session.SessionOutcome | jitter.py:95-135 | `SessionOf`, what `main` leaves: it ends normally exactly when the body is accepted, and ends with ZeroDivisionError and nothing written on a `dump_freq` of 0 with any body line; when it ends normally it has collected the statistics lines and written one snapshot per entry of `DumpSizes`, then one last snapshot of `analyse` of the whole body; when it ends with an exception, the snapshots it has written are those of `DumpSizes` for the part of the output the loop got through, and the save file holds the last of them |
| Session.EveryDumpFreqLines | jitter.py:114-126 | with no blank line and no divider, snapshots are written at body sizes `dump_freq`, `2 * dump_freq`, and so on: `len(lines) // dump_freq` of them |
| Session.CleanLineStep | jitter.py:96-114 | one more non-blank, non-divider line after such lines joins the body and writes a snapshot exactly when its count is a multiple of `dump_freq` |
| Session.BlankLineExample | jitter.py:96-114 | a blank line still advances `enumerate`: with a `dump_freq` of 2, the lines `a`, blank, `b`, `c` write one snapshot during the loop, of the body `a`, `b`, `c` |
| Session.BlankLinePrefix | jitter.py:96-114 | the first three lines of that example keep `a` and `b` and write nothing |
| Session.StatsLinesNeverWrite | jitter.py:100-128 | once a divider has been kept, no later line writes a snapshot during the loop |

## Left out

- Process plumbing: argument parsing, running `ping` as a subprocess, reading the header line
  and the SIGINT handler (jitter.py:19-26, 62-85) are I/O. The lines after the header are a
  parameter, and the start time is its hour.
- A `ping` process that prints no header makes `next()` raise StopIteration, which is not
  modelled.
- Output: `pickle.dump` into the save path, the `strftime` naming of that path, tqdm progress
  bars and verbose printing (jitter.py:75-78, 90-93, 103-110, 117-126, 132-138) are I/O. Each
  write is an append to the returned snapshots.
- Ping.ParseTime: a timestamp is a day offset and a clock time, not a calendar date, so the
  month and year carry of `timedelta(days=1)` is not modelled.
- Ping.Reading: latencies are exact decimals and jitter values exact differences, not IEEE
  doubles. Rounding in `float()` and in `abs(next_ping - ping)` is not modelled.
- Text.ParseDecimal: `float()` is modelled on plain decimal notation: an optional sign, then
  `W`, `W.`, `W.F` or `.F` with digit groups. Exponents, `inf`, `nan`, surrounding
  whitespace and decimal digits of other scripts are refused here, although Python accepts
  them. `ping` prints none of these: its numbers are ASCII digits.
- Text.ParseInt: only ASCII digits are accepted. Python's `int()` also accepts digits of
  other scripts and surrounding whitespace, which never occur inside a `split()` field that
  `ping` prints.
- Text.ParseInt, Text.ShowInt: CPython's `int()` and `str()` raise ValueError on integers of
  more than 4300 digits (`sys.int_info.default_max_str_digits`). The model has no such limit,
  so `ParseFields` and `TimeoutSeq` accept a sequence number that long, and
  `Ping.AnalysisSucceeds` and `Text.ParseIntShowInt` hold only for shorter numbers in CPython.
  `ping` never prints such numbers.
- Segments.GetSegments: widths are modelled as integers. Python returns them as floats from
  `total_seconds() + 1`, which is exact for whole seconds.
- The `if buffer:` guard of get_segments (analysis.py:44) always holds after the loop over a
  non-empty series, so the model writes the last segment without testing it.
- `plot` and everything below it in analysis.py (analysis.py:51-110) is plotting and notebook
  code.
- OverflowError from `datetime` on dates past year 9999 is not modelled.
- Ping.ParseTime: `datetime()` first converts hour, minute and second to a C `int`, so a clock
  field outside [-2^31, 2^31), such as `2147483648:00:00`, raises OverflowError in Python.
  The model raises ValueError for it, through the range check. `ping` prints two-digit fields.
