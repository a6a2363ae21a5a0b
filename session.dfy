/** The loop of `main` in jitter.py: every line `ping` prints after its header goes through
    `str.strip()`; blank lines are skipped; the lines before the first one starting with `---`
    form the body, that line and the ones after it the statistics; every `dump_freq`-th line
    (counted by its `enumerate` index, blank lines included) that lands in the body writes a
    snapshot of `analyse(body)`, and one last snapshot is written when the output ends. */
module Session {
  import opened Failures
  import opened Text
  import opened Ping

  /** What each `pickle.dump` writes: `(pings, jitter, missed)`, which is not the order in which
      `analyse` returns them. */
  datatype Snapshot = Snapshot(pings: seq<Reading>, jitter: seq<Reading>, missed: seq<int>)

  function ToSnapshot(a: Analysis): Snapshot {
    Snapshot(a.pings, a.jitter, a.missed)
  }

  /** `line.startswith('---')`: the line that opens `ping`'s closing statistics. */
  predicate IsDivider(line: String) {
    StartsWith(line, "---")
  }

  /** The variables of the loop of `main`, and the exception that ended it if one did. */
  datatype Progress = Progress(body: seq<String>, stats: seq<String>, inBody: bool,
                               written: seq<Snapshot>, failure: Option<Error>)

  function Start(): Progress {
    Progress([], [], true, [], None)
  }

  /** A body line at `enumerate` index `i`: it is appended to `body`, and when `(i+1) % dump_freq`
      is zero a snapshot of `analyse(body)` is written. `(i+1) % dump_freq` raises
      ZeroDivisionError for a `dump_freq` of 0; for any other `dump_freq`, Python's remainder is
      zero exactly when Dafny's is. */
  function AddToBody(p: Progress, i: nat, line: String, startHour: nat, dumpFreq: int): Progress {
    var body := p.body + [line];
    if dumpFreq == 0 then p.(body := body, failure := Some(ZeroDivisionError))
    else if (i + 1) % dumpFreq != 0 then p.(body := body)
    else
      match AnalysisOf(body, startHour)
      case Err(e) => p.(body := body, failure := Some(e))
      case Ok(a) => p.(body := body, written := p.written + [ToSnapshot(a)])
  }

  /** One pass of the loop for the line `raw` at `enumerate` index `i`. Once something has
      raised, nothing changes. */
  function Step(p: Progress, i: nat, raw: String, startHour: nat, dumpFreq: int): Progress {
    if p.failure.Some? then p
    else
      var line := Strip(raw);
      if line == [] then p
      else if p.inBody && !IsDivider(line) then AddToBody(p, i, line, startHour, dumpFreq)
      else p.(inBody := false, stats := p.stats + [line])
  }

  /** The loop variables after the loop has read `lines`. */
  function Run(lines: seq<String>, startHour: nat, dumpFreq: int): Progress
    decreases |lines|
  {
    if lines == [] then Start()
    else
      var i := |lines| - 1;
      Step(Run(lines[..i], startHour, dumpFreq), i, lines[i], startHour, dumpFreq)
  }

  /** What a session leaves behind: the snapshots written, in order, the statistics lines, and
      whether `main` ended normally or with an exception. */
  datatype Report = Report(written: seq<Snapshot>, stats: seq<String>, outcome: Outcome)

  /** The loop over `lines`, then the final `analyse` and its snapshot. */
  function SessionOf(lines: seq<String>, startHour: nat, dumpFreq: int): Report {
    var p := Run(lines, startHour, dumpFreq);
    if p.failure.Some? then Report(p.written, p.stats, Fail(p.failure.value))
    else
      match AnalysisOf(p.body, startHour)
      case Err(e) => Report(p.written, p.stats, Fail(e))
      case Ok(a) => Report(p.written + [ToSnapshot(a)], p.stats, Pass)
  }

  /** The loop of `main` over the lines after the header, then the final `analyse` and write.
      It returns the snapshots written, in order, the statistics lines and how `main` ended; an
      exception ends it at once, with what was written until then. */
  method RunSession(lines: seq<String>, startHour: nat, dumpFreq: int)
    returns (written: seq<Snapshot>, stats: seq<String>, outcome: Outcome)
    ensures Report(written, stats, outcome) == SessionOf(lines, startHour, dumpFreq)
  {
    var body: seq<String> := [];
    stats := [];
    written := [];
    var inBody := true;
    var i := 0;
    while i < |lines|
      invariant 0 <= i <= |lines|
      invariant Run(lines[..i], startHour, dumpFreq) == Progress(body, stats, inBody, written, None)
    {
      RunStep(lines, i, startHour, dumpFreq);
      var failure;
      body, stats, inBody, written, failure := Consume(body, stats, inBody, written, i, lines[i], startHour, dumpFreq);
      if failure.Some? {
        FailureSticks(lines, i + 1, startHour, dumpFreq);
        assert lines[..|lines|] == lines;
        return written, stats, Fail(failure.value);
      }
      i := i + 1;
    }
    assert lines[..|lines|] == lines;
    var a := Analyse(body, startHour);
    if a.Err? {
      return written, stats, Fail(a.error);
    }
    written := written + [ToSnapshot(a.value)];
    outcome := Pass;
  }

  /** One pass of the loop of `main`, for the line `raw` at `enumerate` index `i`: it updates the
      loop variables as `Step` says, and returns the exception that ends the loop if one is
      raised. */
  method Consume(body: seq<String>, stats: seq<String>, inBody: bool, written: seq<Snapshot>,
                 i: nat, raw: String, startHour: nat, dumpFreq: int)
    returns (body': seq<String>, stats': seq<String>, inBody': bool, written': seq<Snapshot>,
             failure: Option<Error>)
    ensures Step(Progress(body, stats, inBody, written, None), i, raw, startHour, dumpFreq)
         == Progress(body', stats', inBody', written', failure)
  {
    body', stats', inBody', written', failure := body, stats, inBody, written, None;
    var line := Strip(raw);
    if line == [] {
      return;
    }
    if IsDivider(line) {
      inBody' := false;
    }
    if inBody' {
      body' := body' + [line];
      if dumpFreq == 0 {
        failure := Some(ZeroDivisionError);
        return;
      }
      if (i + 1) % dumpFreq == 0 {
        var a := Analyse(body', startHour);
        if a.Err? {
          failure := Some(a.error);
          return;
        }
        written' := written' + [ToSnapshot(a.value)];
      }
    } else {
      stats' := stats' + [line];
    }
  }

  lemma RunStep(lines: seq<String>, i: nat, startHour: nat, dumpFreq: int)
    requires i < |lines|
    ensures Run(lines[..i + 1], startHour, dumpFreq)
         == Step(Run(lines[..i], startHour, dumpFreq), i, lines[i], startHour, dumpFreq)
  {
    assert lines[..i + 1][..i] == lines[..i];
  }

  // ---------------------------------------------------------------- what the loop computes

  /** The stripped non-blank lines, in order. */
  function Kept(lines: seq<String>): (r: seq<String>)
    ensures |r| <= |lines|
    ensures forall k | 0 <= k < |r| :: r[k] != []
    decreases |lines|
  {
    if lines == [] then []
    else
      var i := |lines| - 1;
      Kept(lines[..i]) + (if Strip(lines[i]) == [] then [] else [Strip(lines[i])])
  }

  /** The index of the first divider line, or the length when there is none. */
  function FirstDivider(ls: seq<String>): (n: nat)
    ensures n <= |ls|
    ensures forall k | 0 <= k < n :: !IsDivider(ls[k])
    ensures n < |ls| ==> IsDivider(ls[n])
  {
    if ls == [] then 0
    else if IsDivider(ls[0]) then 0
    else
      var n := 1 + FirstDivider(ls[1..]);
      assert forall k | 1 <= k < n :: ls[k] == ls[1..][k - 1];
      n
  }

  /** The lines `main` appends to `body`: the kept lines before the first divider. */
  function BodyOf(lines: seq<String>): seq<String> {
    var ks := Kept(lines);
    ks[..FirstDivider(ks)]
  }

  /** The lines `main` appends to `stats`: the first divider and every kept line after it. */
  function StatsOf(lines: seq<String>): seq<String> {
    var ks := Kept(lines);
    ks[FirstDivider(ks)..]
  }

  /** The body sizes at which a snapshot is written during the loop: one per non-blank body line
      whose `enumerate` index `i` has `(i+1) % dump_freq == 0`. */
  function DumpSizes(lines: seq<String>, dumpFreq: int): seq<nat>
    decreases |lines|
  {
    if lines == [] then []
    else
      var ks := Kept(lines);
      DumpSizes(lines[..|lines| - 1], dumpFreq)
      + (if Strip(lines[|lines| - 1]) != [] && FirstDivider(ks) == |ks| && dumpFreq != 0
            && |lines| % dumpFreq == 0
         then [|ks|] else [])
  }

  lemma {:induction false} FirstDividerUnique(ls: seq<String>, n: nat)
    requires n <= |ls|
    requires forall k | 0 <= k < n :: !IsDivider(ls[k])
    requires n < |ls| ==> IsDivider(ls[n])
    ensures FirstDivider(ls) == n
  {
    if ls != [] && n > 0 {
      assert forall k | 0 <= k < n - 1 :: ls[1..][k] == ls[k + 1];
      FirstDividerUnique(ls[1..], n - 1);
    }
  }

  /** A line added after the first divider leaves it where it is; without one, the new line is
      the divider or pushes the end one further. */
  lemma FirstDividerAppend(ls: seq<String>, x: String)
    ensures FirstDivider(ls + [x])
         == if FirstDivider(ls) < |ls| then FirstDivider(ls) else if IsDivider(x) then |ls| else |ls| + 1
  {
    var n := FirstDivider(ls);
    var m := if n < |ls| then n else if IsDivider(x) then |ls| else |ls| + 1;
    assert forall k | 0 <= k < |ls| :: (ls + [x])[k] == ls[k];
    FirstDividerUnique(ls + [x], m);
  }

  /** One more raw line: the kept lines grow by its stripped text when that is not blank, the body
      by that text while no divider has been kept, and the statistics by it from the divider on. */
  lemma KeptStep(lines: seq<String>)
    requires lines != []
    ensures var prev := lines[..|lines| - 1];
      var line := Strip(lines[|lines| - 1]);
      var ks := Kept(prev);
      if line == [] then Kept(lines) == ks && BodyOf(lines) == BodyOf(prev) && StatsOf(lines) == StatsOf(prev)
      else
        Kept(lines) == ks + [line]
        && (if FirstDivider(ks) == |ks| && !IsDivider(line)
            then BodyOf(lines) == BodyOf(prev) + [line] && StatsOf(lines) == StatsOf(prev) == []
            else BodyOf(lines) == BodyOf(prev) && StatsOf(lines) == StatsOf(prev) + [line])
        && (FirstDivider(Kept(lines)) == |Kept(lines)| <==> FirstDivider(ks) == |ks| && !IsDivider(line))
  {
    var prev := lines[..|lines| - 1];
    var line := Strip(lines[|lines| - 1]);
    var ks := Kept(prev);
    if line != [] {
      FirstDividerAppend(ks, line);
      var n := FirstDivider(ks);
      assert (ks + [line])[..n] == ks[..n];
      if n < |ks| {
        assert (ks + [line])[n..] == ks[n..] + [line];
      } else if IsDivider(line) {
        assert (ks + [line])[|ks|..] == [line];
      } else {
        assert (ks + [line])[..|ks| + 1] == ks[..n] + [line];
      }
    }
  }

  /** The loop appends every kept line before the first divider to `body` and every later one
      to `stats`, in order, and `in_body` stays true exactly as long as no divider has been
      kept: once false, it never returns to true. */
  lemma {:induction false} Routing(lines: seq<String>, startHour: nat, dumpFreq: int)
    ensures var p := Run(lines, startHour, dumpFreq);
      p.failure.None? ==>
        p.body == BodyOf(lines) && p.stats == StatsOf(lines)
        && (p.inBody <==> FirstDivider(Kept(lines)) == |Kept(lines)|)
    decreases |lines|
  {
    if lines != [] {
      var prev := lines[..|lines| - 1];
      var q := Run(prev, startHour, dumpFreq);
      var p := Step(q, |lines| - 1, lines[|lines| - 1], startHour, dumpFreq);
      assert Run(lines, startHour, dumpFreq) == p;
      if p.failure.None? {
        StepRoutes(q, |lines| - 1, lines[|lines| - 1], startHour, dumpFreq);
        Routing(prev, startHour, dumpFreq);
        KeptStep(lines);
      }
    }
  }

  /** Where one pass of the loop puts its line, when it raises nothing. */
  lemma StepRoutes(q: Progress, i: nat, raw: String, startHour: nat, dumpFreq: int)
    requires Step(q, i, raw, startHour, dumpFreq).failure.None?
    ensures q.failure.None?
    ensures var p := Step(q, i, raw, startHour, dumpFreq);
      var line := Strip(raw);
      if line == [] then p.body == q.body && p.stats == q.stats && p.inBody == q.inBody
      else if q.inBody && !IsDivider(line) then p.body == q.body + [line] && p.stats == q.stats && p.inBody
      else p.body == q.body && p.stats == q.stats + [line] && !p.inBody
  {
  }

  /** Once an exception has been raised, the rest of the output changes nothing. */
  lemma {:induction false} FailureSticks(lines: seq<String>, m: nat, startHour: nat, dumpFreq: int)
    requires m <= |lines|
    requires Run(lines[..m], startHour, dumpFreq).failure.Some?
    ensures Run(lines, startHour, dumpFreq) == Run(lines[..m], startHour, dumpFreq)
    decreases |lines| - m
  {
    if m < |lines| {
      var prev := lines[..|lines| - 1];
      assert prev[..m] == lines[..m];
      FailureSticks(prev, m, startHour, dumpFreq);
    } else {
      assert lines[..m] == lines;
    }
  }

  /** The body seen by an earlier pass of the loop is a prefix of the body seen by a later one. */
  lemma BodyGrows(lines: seq<String>)
    requires lines != []
    ensures var before := BodyOf(lines[..|lines| - 1]);
      |before| <= |BodyOf(lines)| && BodyOf(lines)[..|before|] == before
  {
    KeptStep(lines);
  }

  /** `written` holds one snapshot per entry of `sizes`, in order: the `j`-th is `analyse` of the
      first `sizes[j]` lines of `body`, and the sizes grow strictly without passing `|body|`. */
  predicate Logged(written: seq<Snapshot>, sizes: seq<nat>, body: seq<String>, startHour: nat) {
    && |written| == |sizes|
    && (forall j | 0 <= j < |sizes| ::
          0 < sizes[j] <= |body| && AnalysisOf(body[..sizes[j]], startHour).Ok?
          && written[j] == ToSnapshot(AnalysisOf(body[..sizes[j]], startHour).value))
    && (forall j, j' | 0 <= j < j' < |sizes| :: sizes[j] < sizes[j'])
  }

  /** Appending lines to the body keeps the snapshots already written what they were. */
  lemma LoggedLonger(written: seq<Snapshot>, sizes: seq<nat>, before: seq<String>, body: seq<String>,
                     startHour: nat)
    requires Logged(written, sizes, before, startHour)
    requires |before| <= |body| && body[..|before|] == before
    ensures Logged(written, sizes, body, startHour)
  {
    assert forall j | 0 <= j < |sizes| :: body[..sizes[j]] == before[..sizes[j]];
  }

  /** A snapshot of a body longer than at every earlier write extends the log. */
  lemma LoggedDump(written: seq<Snapshot>, sizes: seq<nat>, before: seq<String>, body: seq<String>,
                   startHour: nat)
    requires Logged(written, sizes, before, startHour)
    requires |before| < |body| && body[..|before|] == before
    requires AnalysisOf(body, startHour).Ok?
    ensures Logged(written + [ToSnapshot(AnalysisOf(body, startHour).value)], sizes + [|body|], body,
                   startHour)
  {
    LoggedLonger(written, sizes, before, body, startHour);
    assert body[..|body|] == body;
  }

  /** While the loop runs without an exception, the snapshots it has written are those of
      `DumpSizes`: one per body line whose `enumerate` index `i` has `(i+1) % dump_freq == 0`,
      each `analyse` of the body as it stood then. */
  lemma {:induction false} Snapshots(lines: seq<String>, startHour: nat, dumpFreq: int)
    ensures var p := Run(lines, startHour, dumpFreq);
      p.failure.None? ==> Logged(p.written, DumpSizes(lines, dumpFreq), BodyOf(lines), startHour)
    decreases |lines|
  {
    if lines != [] {
      var prev := lines[..|lines| - 1];
      var q := Run(prev, startHour, dumpFreq);
      var p := Step(q, |lines| - 1, lines[|lines| - 1], startHour, dumpFreq);
      assert Run(lines, startHour, dumpFreq) == p;
      if p.failure.None? {
        assert q.failure.None?;
        Snapshots(prev, startHour, dumpFreq);
        Routing(prev, startHour, dumpFreq);
        BodyGrows(lines);
        KeptStep(lines);
        var body := BodyOf(lines);
        var before := BodyOf(prev);
        var earlier := DumpSizes(prev, dumpFreq);
        var line := Strip(lines[|lines| - 1]);
        var ks := Kept(lines);
        if line != [] && FirstDivider(ks) == |ks| && dumpFreq != 0 && |lines| % dumpFreq == 0 {
          assert body == ks && body == before + [line];
          assert p == AddToBody(q, |lines| - 1, line, startHour, dumpFreq);
          LoggedDump(q.written, earlier, before, body, startHour);
        } else {
          assert DumpSizes(lines, dumpFreq) == earlier;
          assert p.written == q.written;
          LoggedLonger(q.written, earlier, before, body, startHour);
        }
      }
    }
  }

  /** `main` gets through `body` without an exception: `dump_freq` is not 0 (or no body line
      arrives to divide by it) and `analyse` accepts the body. */
  predicate BodyAccepted(body: seq<String>, startHour: nat, dumpFreq: int) {
    (dumpFreq != 0 || body == []) && AnalysisOf(body, startHour).Ok?
  }

  /** The session ends normally exactly when this holds. */
  predicate Accepted(lines: seq<String>, startHour: nat, dumpFreq: int) {
    BodyAccepted(BodyOf(lines), startHour, dumpFreq)
  }

  /** A body that is refused stays refused as lines are added to it. */
  lemma RefusalPersists(before: seq<String>, body: seq<String>, startHour: nat, dumpFreq: int)
    requires |before| <= |body| && body[..|before|] == before
    requires !BodyAccepted(before, startHour, dumpFreq)
    ensures !BodyAccepted(body, startHour, dumpFreq)
  {
    if AnalysisOf(before, startHour).Err? {
      assert body == before + body[|before|..];
      AnalysisOfPrefix(before, body[|before|..], startHour);
    }
  }

  /** The pass that raises: a body line arrives, and either `dump_freq` is 0 or the write's
      `analyse` refuses the body. */
  lemma StepFailure(q: Progress, i: nat, line: String, startHour: nat, dumpFreq: int)
    requires q.failure.None?
    requires AddToBody(q, i, line, startHour, dumpFreq).failure.Some?
    ensures !BodyAccepted(q.body + [line], startHour, dumpFreq)
  {
  }

  /** With a `dump_freq` of 0 the loop raises ZeroDivisionError at the first body line, and only
      then: the body then holds that one line, and nothing has been written. */
  lemma {:induction false} ZeroDumpFreq(lines: seq<String>, startHour: nat)
    ensures var p := Run(lines, startHour, 0);
      && (p.failure.None? <==> BodyOf(lines) == [])
      && (p.failure.Some? ==> p.failure == Some(ZeroDivisionError) && p.body == BodyOf(lines)[..1])
      && p.written == []
    decreases |lines|
  {
    if lines != [] {
      var prev := lines[..|lines| - 1];
      var q := Run(prev, startHour, 0);
      var p := Step(q, |lines| - 1, lines[|lines| - 1], startHour, 0);
      assert Run(lines, startHour, 0) == p;
      ZeroDumpFreq(prev, startHour);
      KeptStep(lines);
      BodyGrows(lines);
      if q.failure.None? {
        Routing(prev, startHour, 0);
      } else {
        assert BodyOf(lines)[..1] == BodyOf(prev)[..1];
      }
    }
  }

  /** The loop raises only when the body it has read is refused, by a `dump_freq` of 0 or by
      `analyse` at a write; the final `analyse` of the longer body would refuse it too. */
  lemma {:induction false} LoopFailure(lines: seq<String>, startHour: nat, dumpFreq: int)
    ensures Run(lines, startHour, dumpFreq).failure.Some? ==> !Accepted(lines, startHour, dumpFreq)
    decreases |lines|
  {
    if lines != [] {
      var prev := lines[..|lines| - 1];
      var q := Run(prev, startHour, dumpFreq);
      var p := Step(q, |lines| - 1, lines[|lines| - 1], startHour, dumpFreq);
      assert Run(lines, startHour, dumpFreq) == p;
      if q.failure.Some? {
        LoopFailure(prev, startHour, dumpFreq);
        BodyGrows(lines);
        RefusalPersists(BodyOf(prev), BodyOf(lines), startHour, dumpFreq);
      } else if p.failure.Some? {
        Routing(prev, startHour, dumpFreq);
        KeptStep(lines);
        var line := Strip(lines[|lines| - 1]);
        assert BodyOf(lines) == q.body + [line];
        StepFailure(q, |lines| - 1, line, startHour, dumpFreq);
      }
    }
  }

  /** The loop stops after the first `m` lines: they go through without an exception, and the
      next line, if there is one, raises. */
  predicate StopsAt(lines: seq<String>, m: nat, startHour: nat, dumpFreq: int)
    requires m <= |lines|
  {
    && Run(lines[..m], startHour, dumpFreq).failure.None?
    && (m < |lines| ==> Run(lines[..m + 1], startHour, dumpFreq).failure.Some?)
  }

  /** A pass that raises writes nothing. */
  lemma StepFailureWritesNothing(q: Progress, i: nat, raw: String, startHour: nat, dumpFreq: int)
    requires q.failure.None? && Step(q, i, raw, startHour, dumpFreq).failure.Some?
    ensures Step(q, i, raw, startHour, dumpFreq).written == q.written
  {
  }

  /** The loop stops after the first `m` lines of `lines` and has written, by the end, exactly
      what it had written by then: `m` is all of the output exactly when nothing raises. */
  predicate KeptUntil(lines: seq<String>, m: nat, startHour: nat, dumpFreq: int)
    requires m <= |lines|
  {
    && StopsAt(lines, m, startHour, dumpFreq)
    && (m == |lines| <==> Run(lines, startHour, dumpFreq).failure.None?)
    && Run(lines, startHour, dumpFreq).written == Run(lines[..m], startHour, dumpFreq).written
  }

  /** A run keeps what it wrote before the pass that raised: its snapshots are those of the
      longest part of the output that the loop gets through without an exception, and that part
      is all of the output exactly when nothing raises. */
  lemma {:induction false} WrittenBeforeFailure(lines: seq<String>, startHour: nat, dumpFreq: int)
    ensures exists m | 0 <= m <= |lines| :: KeptUntil(lines, m, startHour, dumpFreq)
    decreases |lines|
  {
    if lines == [] {
      assert lines[..0] == lines;
      assert KeptUntil(lines, 0, startHour, dumpFreq);
    } else {
      var n := |lines| - 1;
      var prev := lines[..n];
      var q := Run(prev, startHour, dumpFreq);
      if q.failure.Some? {
        WrittenBeforeFailure(prev, startHour, dumpFreq);
        var m :| 0 <= m <= |prev| && KeptUntil(prev, m, startHour, dumpFreq);
        KeptUntilLonger(lines, m, startHour, dumpFreq);
      } else if Run(lines, startHour, dumpFreq).failure.None? {
        KeptUntilEnd(lines, startHour, dumpFreq);
      } else {
        KeptUntilLast(lines, startHour, dumpFreq);
      }
    }
  }

  /** A line read after the loop has raised leaves where it stopped as it was. */
  lemma KeptUntilLonger(lines: seq<String>, m: nat, startHour: nat, dumpFreq: int)
    requires m < |lines| - 1 && KeptUntil(lines[..|lines| - 1], m, startHour, dumpFreq)
    ensures KeptUntil(lines, m, startHour, dumpFreq)
  {
    var prev := lines[..|lines| - 1];
    assert Run(lines, startHour, dumpFreq) == Run(prev, startHour, dumpFreq);
    assert prev[..m] == lines[..m] && prev[..m + 1] == lines[..m + 1];
  }

  /** A loop that gets through every line stops after all of them. */
  lemma KeptUntilEnd(lines: seq<String>, startHour: nat, dumpFreq: int)
    requires Run(lines, startHour, dumpFreq).failure.None?
    ensures KeptUntil(lines, |lines|, startHour, dumpFreq)
  {
    assert lines[..|lines|] == lines;
  }

  /** A loop that gets through every line but the last, and raises there, stops before it. */
  lemma KeptUntilLast(lines: seq<String>, startHour: nat, dumpFreq: int)
    requires lines != [] && Run(lines[..|lines| - 1], startHour, dumpFreq).failure.None?
    requires Run(lines, startHour, dumpFreq).failure.Some?
    ensures KeptUntil(lines, |lines| - 1, startHour, dumpFreq)
  {
    var n := |lines| - 1;
    var q := Run(lines[..n], startHour, dumpFreq);
    assert Run(lines, startHour, dumpFreq) == Step(q, n, lines[n], startHour, dumpFreq);
    StepFailureWritesNothing(q, n, lines[n], startHour, dumpFreq);
    assert lines[..n + 1] == lines;
  }

  /** What a whole session leaves behind. It ends normally exactly when `Accepted` holds, and a
      `dump_freq` of 0 with any body line ends it with ZeroDivisionError and nothing written. A
      session that ends normally has collected the statistics lines, written a snapshot at every
      entry of `DumpSizes`, and written last the snapshot of the whole body: one more write than
      the loop made. The snapshots a session that ends with an exception has written are those
      the loop wrote before it: those of `DumpSizes` for the part of the output it got through.
      Each write truncates the save file, so the file holds the last of them. */
  lemma SessionOutcome(lines: seq<String>, startHour: nat, dumpFreq: int)
    ensures var r := SessionOf(lines, startHour, dumpFreq);
      && (r.outcome == Pass <==> Accepted(lines, startHour, dumpFreq))
      && (dumpFreq == 0 && BodyOf(lines) != [] ==> r.outcome == Fail(ZeroDivisionError) && r.written == [])
      && (r.outcome == Pass ==>
            && r.stats == StatsOf(lines)
            && |r.written| == |DumpSizes(lines, dumpFreq)| + 1
            && Logged(r.written[..|r.written| - 1], DumpSizes(lines, dumpFreq), BodyOf(lines), startHour)
            && r.written[|r.written| - 1] == ToSnapshot(AnalysisOf(BodyOf(lines), startHour).value))
      && (r.outcome.Fail? ==>
            exists m | 0 <= m <= |lines| ::
              && Run(lines[..m], startHour, dumpFreq).failure.None?
              && Logged(r.written, DumpSizes(lines[..m], dumpFreq), BodyOf(lines[..m]), startHour))
  {
    var p := Run(lines, startHour, dumpFreq);
    LoopFailure(lines, startHour, dumpFreq);
    if dumpFreq == 0 {
      ZeroDumpFreq(lines, startHour);
    }
    Routing(lines, startHour, dumpFreq);
    Snapshots(lines, startHour, dumpFreq);
    FailedSessionSnapshots(lines, startHour, dumpFreq);
    if p.failure.None? && AnalysisOf(p.body, startHour).Ok? {
      var r := SessionOf(lines, startHour, dumpFreq);
      assert r.written[..|r.written| - 1] == p.written;
    }
  }

  /** The snapshots a session that ends with an exception has written are those of `DumpSizes`
      for the part of the output the loop got through; the save file holds the last of them. */
  lemma FailedSessionSnapshots(lines: seq<String>, startHour: nat, dumpFreq: int)
    ensures var r := SessionOf(lines, startHour, dumpFreq);
      r.outcome.Fail? ==>
        exists m | 0 <= m <= |lines| ::
          && Run(lines[..m], startHour, dumpFreq).failure.None?
          && Logged(r.written, DumpSizes(lines[..m], dumpFreq), BodyOf(lines[..m]), startHour)
  {
    var p := Run(lines, startHour, dumpFreq);
    assert SessionOf(lines, startHour, dumpFreq).written == p.written
        || SessionOf(lines, startHour, dumpFreq).outcome == Pass;
    if p.failure.None? {
      assert lines[..|lines|] == lines;
      Snapshots(lines, startHour, dumpFreq);
    } else {
      WrittenBeforeFailure(lines, startHour, dumpFreq);
      var m :| 0 <= m <= |lines| && KeptUntil(lines, m, startHour, dumpFreq);
      Snapshots(lines[..m], startHour, dumpFreq);
    }
  }

  /** With no blank line and no divider, a snapshot is written after every `dump_freq`-th line:
      at body sizes `dump_freq`, `2 * dump_freq`, and so on, `|lines| / dump_freq` times. */
  lemma {:induction false} EveryDumpFreqLines(lines: seq<String>, dumpFreq: nat)
    requires dumpFreq > 0
    requires forall k | 0 <= k < |lines| :: Strip(lines[k]) == lines[k] != [] && !IsDivider(lines[k])
    ensures Kept(lines) == lines && BodyOf(lines) == lines
    ensures |DumpSizes(lines, dumpFreq)| == |lines| / dumpFreq
    ensures forall j | 0 <= j < |DumpSizes(lines, dumpFreq)| :: DumpSizes(lines, dumpFreq)[j] == (j + 1) * dumpFreq
    decreases |lines|
  {
    if lines != [] {
      var n := |lines|;
      var prev := lines[..n - 1];
      EveryDumpFreqLines(prev, dumpFreq);
      CleanLineStep(lines, dumpFreq);
      MultiplesStep(DumpSizes(prev, dumpFreq), n, dumpFreq);
    } else {
      FirstDividerUnique(lines, 0);
    }
  }

  /** One more stripped, non-blank, non-divider line after lines that are all such lines. */
  lemma CleanLineStep(lines: seq<String>, dumpFreq: nat)
    requires lines != [] && dumpFreq > 0
    requires Kept(lines[..|lines| - 1]) == lines[..|lines| - 1]
    requires Strip(lines[|lines| - 1]) == lines[|lines| - 1] != []
    requires forall k | 0 <= k < |lines| :: !IsDivider(lines[k])
    ensures Kept(lines) == lines && BodyOf(lines) == lines
    ensures DumpSizes(lines, dumpFreq)
      == DumpSizes(lines[..|lines| - 1], dumpFreq) + (if |lines| % dumpFreq == 0 then [|lines|] else [])
  {
    var n := |lines|;
    assert Kept(lines) == lines by {
      KeptStep(lines);
      assert lines[..n - 1] + [lines[n - 1]] == lines;
    }
    assert FirstDivider(lines) == n by {
      FirstDividerUnique(lines, n);
    }
    assert lines[..n] == lines;
  }

  /** One more raw line, as `Kept` and `DumpSizes` see it. */
  lemma Snoc(lines: seq<String>, x: String, dumpFreq: int)
    ensures Kept(lines + [x]) == Kept(lines) + (if Strip(x) == [] then [] else [Strip(x)])
    ensures var ks := Kept(lines + [x]);
      DumpSizes(lines + [x], dumpFreq)
      == DumpSizes(lines, dumpFreq)
         + (if Strip(x) != [] && FirstDivider(ks) == |ks| && dumpFreq != 0 && (|lines| + 1) % dumpFreq == 0
            then [|ks|] else [])
  {
    assert (lines + [x])[..|lines|] == lines;
  }

  /** A blank line still advances `enumerate`: with a `dump_freq` of 2, the lines `a`, blank,
      `b`, `c` write one snapshot during the loop, at index 3, of the body `a`, `b`, `c`, and none
      at index 1, where the line is blank. */
  lemma BlankLineExample(a: String, b: String, c: String)
    requires Strip(a) == a != [] && Strip(b) == b != [] && Strip(c) == c != []
    requires !IsDivider(a) && !IsDivider(b) && !IsDivider(c)
    ensures BodyOf([a, "", b, c]) == [a, b, c] && DumpSizes([a, "", b, c], 2) == [3]
  {
    var l3 := [a, "", b];
    BlankLinePrefix(a, b);
    Snoc(l3, c, 2);
    assert l3 + [c] == [a, "", b, c];
    FirstDividerUnique([a, b, c], 3);
  }

  /** The first three lines of that example keep `a` and `b` and write nothing. */
  lemma BlankLinePrefix(a: String, b: String)
    requires Strip(a) == a != [] && Strip(b) == b != []
    requires !IsDivider(a) && !IsDivider(b)
    ensures Kept([a, "", b]) == [a, b] && DumpSizes([a, "", b], 2) == []
  {
    assert Strip("") == "";
    var l3 := [a, "", b];
    var l2 := l3[..2];
    var l1 := l2[..1];
    assert l1 == [a] && l1[..0] == [];
    assert l2[1] == "" && l3[2] == b;
    assert Kept(l1) == [a] && DumpSizes(l1, 2) == [];
    assert Kept(l2) == [a] && DumpSizes(l2, 2) == [];
  }

  /** Once a divider has been kept, no later line writes a snapshot during the loop. */
  lemma StatsLinesNeverWrite(lines: seq<String>, x: String, dumpFreq: int)
    requires FirstDivider(Kept(lines)) < |Kept(lines)|
    ensures DumpSizes(lines + [x], dumpFreq) == DumpSizes(lines, dumpFreq)
  {
    Snoc(lines, x, dumpFreq);
    FirstDividerAppend(Kept(lines), Strip(x));
  }

  /** The multiples of `d` up to `n - 1`, then `n` if `d` divides it: the multiples up to `n`. */
  lemma MultiplesStep(s: seq<nat>, n: nat, d: nat)
    requires n > 0 && d > 0
    requires |s| == (n - 1) / d && forall j | 0 <= j < |s| :: s[j] == (j + 1) * d
    ensures var s' := s + (if n % d == 0 then [n] else []);
      |s'| == n / d && forall j | 0 <= j < |s'| :: s'[j] == (j + 1) * d
  {
    DivStep(n, d);
  }

  lemma MulBounds(k: int, d: int)
    requires d > 0
    ensures k >= 1 ==> k * d >= d
    ensures k <= -1 ==> k * d <= -d
  {
    if k >= 1 {
      assert k * d == (k - 1) * d + d;
    } else if k <= -1 {
      assert k * d == (k + 1) * d - d;
    }
  }

  lemma DivModUnique(n: int, d: int, q: int, r: int)
    requires d > 0 && n == q * d + r && 0 <= r < d
    ensures n / d == q && n % d == r
  {
    var q', r' := n / d, n % d;
    assert n == q' * d + r';
    assert (q - q') * d == r' - r;
    MulBounds(q - q', d);
  }

  /** `n / d` grows by one exactly when `d` divides `n`, and then `n` is that many times `d`. */
  lemma DivStep(n: nat, d: nat)
    requires n > 0 && d > 0
    ensures n % d == 0 ==> n / d == (n - 1) / d + 1 && n == (n / d) * d
    ensures n % d != 0 ==> n / d == (n - 1) / d
  {
    var q, r := (n - 1) / d, (n - 1) % d;
    assert n - 1 == q * d + r && 0 <= r < d;
    if r == d - 1 {
      DivModUnique(n, d, q + 1, 0);
    } else {
      DivModUnique(n, d, q, r + 1);
    }
  }
}
