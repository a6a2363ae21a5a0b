/** `get_segments` of analysis.py: cutting a series of samples into consecutive buckets, each
    starting at a sample and holding every later sample taken less than `span` seconds after it. */
module Segments {
  import opened Failures
  import opened Ping

  /** `(buffer, width)`: the samples of one bucket, and the seconds from its first to its last
      sample plus one. */
  datatype Segment = Segment(bucket: seq<Reading>, width: int)

  /** `(b.time - a.time).total_seconds()`: timestamps carry whole seconds, so this is exact. */
  function Elapsed(a: Reading, b: Reading): int {
    Seconds(b.time) - Seconds(a.time)
  }

  /** `(buffer[-1][0] - buffer[0][0]).total_seconds() + 1` */
  function Width(bucket: seq<Reading>): int
    requires bucket != []
  {
    Elapsed(bucket[0], bucket[|bucket| - 1]) + 1
  }

  /** The first index from `i` on whose sample is at least `span` seconds after `s[0]`, or `|s|`. */
  function BucketEndFrom(s: seq<Reading>, span: real, i: nat): (n: nat)
    requires s != [] && i <= |s|
    ensures i <= n <= |s|
    decreases |s| - i
  {
    if i == |s| || Elapsed(s[0], s[i]) as real >= span then i else BucketEndFrom(s, span, i + 1)
  }

  /** Every sample from `i` up to the end found is less than `span` seconds after `s[0]`, and the
      one at the end (if any) is at least `span` seconds after. */
  lemma {:induction false} BucketEndFromSpec(s: seq<Reading>, span: real, i: nat)
    requires s != [] && i <= |s|
    ensures forall k | i <= k < BucketEndFrom(s, span, i) :: (Elapsed(s[0], s[k]) as real) < span
    ensures BucketEndFrom(s, span, i) < |s| ==> Elapsed(s[0], s[BucketEndFrom(s, span, i)]) as real >= span
    decreases |s| - i
  {
    if !(i == |s| || Elapsed(s[0], s[i]) as real >= span) {
      BucketEndFromSpec(s, span, i + 1);
    }
  }

  /** The length of the bucket that starts at `s[0]`. The first sample is always in it. */
  function BucketEnd(s: seq<Reading>, span: real): (n: nat)
    requires s != [] && span > 0.0
    ensures 1 <= n <= |s|
  {
    BucketEndFrom(s, span, 1)
  }

  /** Every sample of the bucket that starts at `s[0]` is less than `span` seconds after `s[0]`,
      and the one that ends it (if any) is at least `span` seconds after. */
  lemma BucketEndSpec(s: seq<Reading>, span: real)
    requires s != [] && span > 0.0
    ensures forall k | 0 <= k < BucketEnd(s, span) :: (Elapsed(s[0], s[k]) as real) < span
    ensures BucketEnd(s, span) < |s| ==> Elapsed(s[0], s[BucketEnd(s, span)]) as real >= span
  {
    BucketEndFromSpec(s, span, 1);
  }

  lemma {:induction false} BucketEndFromUnique(s: seq<Reading>, span: real, i: nat, n: nat)
    requires s != [] && i <= n <= |s|
    requires forall k | i <= k < n :: (Elapsed(s[0], s[k]) as real) < span
    requires n < |s| ==> Elapsed(s[0], s[n]) as real >= span
    ensures BucketEndFrom(s, span, i) == n
    decreases n - i
  {
    if i < n {
      BucketEndFromUnique(s, span, i + 1, n);
    }
  }

  /** The bucket length is determined by the two conditions of `BucketEnd`. */
  lemma BucketEndUnique(s: seq<Reading>, span: real, n: nat)
    requires s != [] && span > 0.0 && 1 <= n <= |s|
    requires forall k | 0 <= k < n :: (Elapsed(s[0], s[k]) as real) < span
    requires n < |s| ==> Elapsed(s[0], s[n]) as real >= span
    ensures BucketEnd(s, span) == n
  {
    BucketEndFromUnique(s, span, 1, n);
  }

  /** The segments `get_segments` returns for a non-empty series and a positive span. */
  function Partition(s: seq<Reading>, span: real): seq<Segment>
    requires span > 0.0
    decreases |s|
  {
    if s == [] then []
    else
      var n := BucketEnd(s, span);
      [Segment(s[..n], Width(s[..n]))] + Partition(s[n..], span)
  }

  /** There is a segment exactly when there is a sample, and never more segments than samples. */
  lemma {:induction false} PartitionCount(s: seq<Reading>, span: real)
    requires span > 0.0
    ensures s == [] <==> Partition(s, span) == []
    ensures |Partition(s, span)| <= |s|
    decreases |s|
  {
    if s != [] {
      PartitionCount(s[BucketEnd(s, span)..], span);
    }
  }

  /** `get_segments(seq, span)`: `seq[0]` raises IndexError on an empty series, and with a span of
      zero or less the first sample already closes the (empty) buffer, whose `buffer[-1]` raises
      IndexError too. */
  function SegmentsOf(s: seq<Reading>, span: real): Result<seq<Segment>> {
    if s == [] || span <= 0.0 then Err(IndexError) else Ok(Partition(s, span))
  }

  /** The samples of the segments, bucket after bucket. */
  function Samples(segs: seq<Segment>): seq<Reading> {
    if segs == [] then [] else segs[0].bucket + Samples(segs[1..])
  }

  /** Every segment is non-empty, and its samples are all less than `span` seconds after its
      first one. */
  predicate WithinSpan(segs: seq<Segment>, span: real) {
    forall j | 0 <= j < |segs| ::
      segs[j].bucket != []
      && forall k | 0 <= k < |segs[j].bucket| ::
           (Elapsed(segs[j].bucket[0], segs[j].bucket[k]) as real) < span
  }

  /** The first sample of each segment but the first is at least `span` seconds after the first
      sample of the segment before it. */
  predicate ApartBySpan(segs: seq<Segment>, span: real)
    requires forall j | 0 <= j < |segs| :: segs[j].bucket != []
  {
    forall j | 0 < j < |segs| :: Elapsed(segs[j - 1].bucket[0], segs[j].bucket[0]) as real >= span
  }

  /** No sample is lost, duplicated or reordered: concatenating the buckets gives the series. */
  lemma {:induction false} PartitionSamples(s: seq<Reading>, span: real)
    requires span > 0.0
    ensures Samples(Partition(s, span)) == s
    decreases |s|
  {
    if s != [] {
      var n := BucketEnd(s, span);
      PartitionSamples(s[n..], span);
      assert s == s[..n] + s[n..];
    }
  }

  /** Each bucket holds the samples less than `span` seconds after its first one, its width is
      the seconds from its first to its last sample plus one, and the next bucket starts at the
      first sample at least `span` seconds after it. */
  lemma PartitionBuckets(s: seq<Reading>, span: real)
    requires span > 0.0
    ensures WithinSpan(Partition(s, span), span)
    ensures ApartBySpan(Partition(s, span), span)
    ensures forall j | 0 <= j < |Partition(s, span)| ::
      Partition(s, span)[j].width == Width(Partition(s, span)[j].bucket)
  {
    PartitionWithinSpan(s, span);
    PartitionApart(s, span);
    PartitionWidthIsWidth(s, span);
  }

  /** The segments after the first are the partition of what follows the first bucket. */
  lemma PartitionTail(s: seq<Reading>, span: real)
    requires s != [] && span > 0.0
    ensures var n := BucketEnd(s, span);
      Partition(s, span)[0] == Segment(s[..n], Width(s[..n]))
      && |Partition(s, span)| == 1 + |Partition(s[n..], span)|
      && forall j | 0 < j < |Partition(s, span)| :: Partition(s, span)[j] == Partition(s[n..], span)[j - 1]
  {
  }

  lemma {:induction false} PartitionWithinSpan(s: seq<Reading>, span: real)
    requires span > 0.0
    ensures WithinSpan(Partition(s, span), span)
    decreases |s|
  {
    if s != [] {
      var n := BucketEnd(s, span);
      var r := Partition(s, span);
      BucketEndSpec(s, span);
      PartitionTail(s, span);
      PartitionWithinSpan(s[n..], span);
      forall k | 0 <= k < n ensures (Elapsed(r[0].bucket[0], r[0].bucket[k]) as real) < span {
        assert r[0].bucket[k] == s[k];
      }
    }
  }

  lemma {:induction false} PartitionApart(s: seq<Reading>, span: real)
    requires span > 0.0
    ensures WithinSpan(Partition(s, span), span)
    ensures ApartBySpan(Partition(s, span), span)
    decreases |s|
  {
    PartitionWithinSpan(s, span);
    if s != [] {
      var n := BucketEnd(s, span);
      var r := Partition(s, span);
      BucketEndSpec(s, span);
      PartitionTail(s, span);
      PartitionApart(s[n..], span);
      if |r| > 1 {
        PartitionWithinSpan(s[n..], span);
        PartitionTail(s[n..], span);
        assert r[1].bucket[0] == s[n];
      }
    }
  }

  lemma {:induction false} PartitionWidthIsWidth(s: seq<Reading>, span: real)
    requires span > 0.0
    ensures WithinSpan(Partition(s, span), span)
    ensures forall j | 0 <= j < |Partition(s, span)| ::
      Partition(s, span)[j].width == Width(Partition(s, span)[j].bucket)
    decreases |s|
  {
    PartitionWithinSpan(s, span);
    if s != [] {
      var n := BucketEnd(s, span);
      PartitionTail(s, span);
      PartitionWidthIsWidth(s[n..], span);
    }
  }

  /** Timestamps that never decrease. The start-hour rule of `parse_time` can break this, so it
      is a hypothesis, not a property of every series. */
  predicate Ordered(s: seq<Reading>) {
    forall i, j | 0 <= i <= j < |s| :: Seconds(s[i].time) <= Seconds(s[j].time)
  }

  /** Over ordered timestamps a width is at least 1 and less than `span + 1`. */
  lemma {:induction false} PartitionWidths(s: seq<Reading>, span: real)
    requires span > 0.0 && Ordered(s)
    ensures forall j | 0 <= j < |Partition(s, span)| ::
      1 <= Partition(s, span)[j].width && (Partition(s, span)[j].width as real) < span + 1.0
    decreases |s|
  {
    if s != [] {
      var n := BucketEnd(s, span);
      BucketEndSpec(s, span);
      assert Ordered(s[n..]);
      PartitionWidths(s[n..], span);
      assert Partition(s, span)[1..] == Partition(s[n..], span);
      assert Seconds(s[0].time) <= Seconds(s[n - 1].time);
      assert (Elapsed(s[0], s[n - 1]) as real) < span;
    }
  }

  /** 25 samples one second apart and a span of 10 give buckets of 10, 10 and 5 samples, of
      widths 10, 10 and 5. */
  lemma TwentyFiveSamplesExample()
    ensures var s := seq(25, i requires 0 <= i => Reading(Instant(0, 12, 0, i), 0, 0.0));
      var r := Partition(s, 10.0);
      |r| == 3 && r[0].bucket == s[..10] && r[1].bucket == s[10..20] && r[2].bucket == s[20..]
      && r[0].width == 10 && r[1].width == 10 && r[2].width == 5
  {
    var s := seq(25, i requires 0 <= i => Reading(Instant(0, 12, 0, i), 0, 0.0));
    assert forall k | 0 <= k < 25 :: Seconds(s[k].time) == 43200 + k;
    BucketEndUnique(s, 10.0, 10);
    var s1 := s[10..];
    BucketEndUnique(s1, 10.0, 10);
    var s2 := s1[10..];
    BucketEndUnique(s2, 10.0, 5);
    assert s2[..5] == s2 && s2[5..] == [];
    assert s1[..10] == s[10..20];
    assert s2 == s[20..];
    assert Partition(s2, 10.0) == [Segment(s2, Width(s2))];
    assert Partition(s1, 10.0) == [Segment(s1[..10], Width(s1[..10]))] + Partition(s2, 10.0);
    assert Partition(s, 10.0) == [Segment(s[..10], Width(s[..10]))] + Partition(s1, 10.0);
  }

  /** The bucket starting at `b0` ends at `i` when the two conditions of `BucketEnd` hold there. */
  lemma RestBucketEnd(series: seq<Reading>, span: real, b0: nat, i: nat)
    requires span > 0.0 && b0 < i <= |series|
    requires forall k | b0 <= k < i :: (Elapsed(series[b0], series[k]) as real) < span
    requires i < |series| ==> Elapsed(series[b0], series[i]) as real >= span
    ensures BucketEnd(series[b0..], span) == i - b0
  {
    var rest := series[b0..];
    assert forall k | 0 <= k < |rest| :: rest[k] == series[b0 + k];
    BucketEndUnique(rest, span, i - b0);
  }

  /** Closing the bucket that starts at `b0` just before `i` splits the rest of the partition
      there. */
  lemma PartitionFrom(series: seq<Reading>, span: real, b0: nat, i: nat)
    requires span > 0.0 && b0 < i <= |series|
    requires forall k | b0 <= k < i :: (Elapsed(series[b0], series[k]) as real) < span
    requires i < |series| ==> Elapsed(series[b0], series[i]) as real >= span
    ensures Partition(series[b0..], span)
         == [Segment(series[b0..i], Width(series[b0..i]))] + Partition(series[i..], span)
  {
    var rest := series[b0..];
    RestBucketEnd(series, span, b0, i);
    assert Partition(rest, span)
        == [Segment(rest[..i - b0], Width(rest[..i - b0]))] + Partition(rest[i - b0..], span);
    assert rest[..i - b0] == series[b0..i];
    assert rest[i - b0..] == series[i..];
  }

  /** The segments closed so far, then the bucket from `b0` to `i`, then the partition of the
      rest: the loop of `get_segments` keeps this true each time it closes a bucket. */
  lemma CloseBucket(series: seq<Reading>, span: real, segments: seq<Segment>,
                    buffer: seq<Reading>, width: int, b0: nat, i: nat)
    requires span > 0.0 && b0 < i <= |series|
    requires forall k | b0 <= k < i :: (Elapsed(series[b0], series[k]) as real) < span
    requires i < |series| ==> Elapsed(series[b0], series[i]) as real >= span
    requires buffer == series[b0..i] && width == Width(buffer)
    requires Partition(series, span) == segments + Partition(series[b0..], span)
    ensures Partition(series, span) == (segments + [Segment(buffer, width)]) + Partition(series[i..], span)
  {
    PartitionFrom(series, span, b0, i);
    ConcatAssoc(segments, [Segment(buffer, width)], Partition(series[i..], span));
  }

  /** The bucket still open when the series runs out is the last segment. */
  lemma LastBucket(series: seq<Reading>, span: real, segments: seq<Segment>,
                   buffer: seq<Reading>, width: int, b0: nat)
    requires span > 0.0 && b0 < |series|
    requires forall k | b0 <= k < |series| :: (Elapsed(series[b0], series[k]) as real) < span
    requires buffer == series[b0..] && width == Width(buffer)
    requires Partition(series, span) == segments + Partition(series[b0..], span)
    ensures Partition(series, span) == segments + [Segment(buffer, width)]
  {
    assert series[b0..|series|] == series[b0..];
    CloseBucket(series, span, segments, buffer, width, b0, |series|);
    assert Partition(series[|series|..], span) == [];
  }

  /** The state of the loop of `get_segments` after the first `i` samples: the open `buffer` holds
      the samples from `b0` on, all less than `span` seconds after `start`, the time of its first
      sample, and the closed `segments` followed by the partition from `b0` on give the whole
      partition. */
  predicate Scanning(series: seq<Reading>, span: real, segments: seq<Segment>, buffer: seq<Reading>,
                     start: Instant, b0: nat, i: nat)
  {
    && b0 <= i <= |series|
    && (i == 0 || (span > 0.0 && b0 < i))
    && buffer == series[b0..i]
    && b0 < |series| && start == series[b0].time
    && (forall k | b0 <= k < i :: (Elapsed(series[b0], series[k]) as real) < span)
    && (span > 0.0 ==> Partition(series, span) == segments + Partition(series[b0..], span))
  }

  lemma ScanStart(series: seq<Reading>, span: real)
    requires series != []
    ensures Scanning(series, span, [], [], series[0].time, 0, 0)
  {
    assert series[0..] == series;
  }

  /** A sample less than `span` seconds after `start` joins the open bucket. */
  lemma ScanExtend(series: seq<Reading>, span: real, segments: seq<Segment>, buffer: seq<Reading>,
                   start: Instant, b0: nat, i: nat)
    requires Scanning(series, span, segments, buffer, start, b0, i) && i < |series|
    requires ((Seconds(series[i].time) - Seconds(start)) as real) < span
    ensures Scanning(series, span, segments, buffer + [series[i]], start, b0, i + 1)
  {
    SliceSnoc(series, b0, i);
    ExtendBucket(series, span, b0, i);
  }

  /** A sample at least `span` seconds after `start` closes a non-empty open bucket and opens
      the next one. */
  lemma ScanClose(series: seq<Reading>, span: real, segments: seq<Segment>, buffer: seq<Reading>,
                  start: Instant, b0: nat, i: nat, width: int)
    requires Scanning(series, span, segments, buffer, start, b0, i) && i < |series|
    requires ((Seconds(series[i].time) - Seconds(start)) as real) >= span
    requires buffer != []
    requires width == Seconds(buffer[|buffer| - 1].time) - Seconds(buffer[0].time) + 1
    ensures Scanning(series, span, segments + [Segment(buffer, width)], [] + [series[i]], series[i].time,
                     i, i + 1)
  {
    CloseBucket(series, span, segments, buffer, width, b0, i);
    SliceSnoc(series, i, i);
  }

  /** With an empty open bucket the first sample is what closes it, so `span` is not positive. */
  lemma ScanEmpty(series: seq<Reading>, span: real, segments: seq<Segment>, buffer: seq<Reading>,
                  start: Instant, b0: nat, i: nat)
    requires Scanning(series, span, segments, buffer, start, b0, i) && i < |series|
    requires ((Seconds(series[i].time) - Seconds(start)) as real) >= span
    requires buffer == []
    ensures span <= 0.0
  {
  }

  /** When the samples run out, the open bucket is the last segment. */
  lemma ScanEnd(series: seq<Reading>, span: real, segments: seq<Segment>, buffer: seq<Reading>,
                start: Instant, b0: nat, width: int)
    requires Scanning(series, span, segments, buffer, start, b0, |series|) && series != []
    requires buffer != [] && width == Seconds(buffer[|buffer| - 1].time) - Seconds(buffer[0].time) + 1
    ensures span > 0.0 && Partition(series, span) == segments + [Segment(buffer, width)]
  {
    assert buffer == series[b0..];
    LastBucket(series, span, segments, buffer, width, b0);
  }

  /** `get_segments(seq, span)` */
  method GetSegments(series: seq<Reading>, span: real) returns (r: Result<seq<Segment>>)
    ensures r == SegmentsOf(series, span)
  {
    if |series| == 0 {
      return Err(IndexError);
    }
    var segments: seq<Segment> := [];
    var buffer: seq<Reading> := [];
    var start := series[0].time;
    var i := 0;
    ghost var b0 := 0;
    ScanStart(series, span);
    while i < |series|
      invariant Scanning(series, span, segments, buffer, start, b0, i)
      decreases |series| - i
    {
      var sample := series[i];
      if (Seconds(sample.time) - Seconds(start)) as real >= span {
        if buffer == [] {
          ScanEmpty(series, span, segments, buffer, start, b0, i);
          return Err(IndexError);
        }
        var width := Seconds(buffer[|buffer| - 1].time) - Seconds(buffer[0].time) + 1;
        ScanClose(series, span, segments, buffer, start, b0, i, width);
        segments := segments + [Segment(buffer, width)];
        buffer := [];
        start := sample.time;
        b0 := i;
      } else {
        ScanExtend(series, span, segments, buffer, start, b0, i);
      }
      buffer := buffer + [sample];
      i := i + 1;
    }
    var width := Seconds(buffer[|buffer| - 1].time) - Seconds(buffer[0].time) + 1;
    ScanEnd(series, span, segments, buffer, start, b0, width);
    segments := segments + [Segment(buffer, width)];
    return Ok(segments);
  }

  /** A sample less than `span` seconds after the start of the open bucket joins it. */
  lemma ExtendBucket(series: seq<Reading>, span: real, b0: nat, i: nat)
    requires b0 <= i < |series|
    requires forall k | b0 <= k < i :: (Elapsed(series[b0], series[k]) as real) < span
    requires (Elapsed(series[b0], series[i]) as real) < span
    ensures forall k | b0 <= k < i + 1 :: (Elapsed(series[b0], series[k]) as real) < span
  {
  }

  lemma ConcatAssoc<T>(a: seq<T>, b: seq<T>, c: seq<T>)
    ensures a + (b + c) == (a + b) + c
  {
  }

  lemma SliceSnoc<T>(s: seq<T>, a: nat, b: nat)
    requires a <= b < |s|
    ensures s[a..b + 1] == s[a..b] + [s[b]]
  {
  }
}
