/** The rolling window of latency samples and its downsampling
    (src/Diagnostics/Connectivity/ConnectivityMonitor.cs). Latencies are reals. Times are clock ticks. */
module ConnectivityMonitor {
  import opened Options
  import opened Numerals

  /** One probe; no latency means it failed. */
  datatype Sample = Sample(at: int, latency: Option<real>)

  const TICKS_PER_SECOND := 10_000_000

  datatype Family = Ipv4 | Ipv6

  /** `RemoveAll(s => s.At < cutoff)`. */
  function Within(samples: seq<Sample>, cutoff: int): seq<Sample> {
    if samples == [] then []
    else if samples[0].at < cutoff then Within(samples[1..], cutoff)
    else [samples[0]] + Within(samples[1..], cutoff)
  }

  lemma {:induction false} WithinGlue(a: seq<Sample>, b: seq<Sample>, cutoff: int)
    ensures Within(a + b, cutoff) == Within(a, cutoff) + Within(b, cutoff)
  {
    if a == [] {
      assert a + b == b;
    } else {
      WithinGlue(a[1..], b, cutoff);
      assert (a + b)[1..] == a[1..] + b;
    }
  }

  lemma {:induction false} WithinTwice(a: seq<Sample>, before: int, after: int)
    requires before <= after
    ensures Within(Within(a, before), after) == Within(a, after)
  {
    if a != [] {
      WithinTwice(a[1..], before, after);
      if a[0].at >= before {
        WithinGlue([a[0]], Within(a[1..], before), after);
      }
    }
  }

  class Monitor {
    const windowSeconds: nat
    const configured: set<Family>
    var samples: map<Family, seq<Sample>>
    ghost var history: map<Family, seq<Sample>>  // every sample ever recorded
    ghost var clock: int                         // the reading at the last recording

    function Cutoff(now: int): int {
      now - windowSeconds * TICKS_PER_SECOND
    }

    /** The window of a family holds exactly its recorded samples that were recent enough at `now`,
        whatever was dropped before; a family without targets has none. */
    ghost predicate Holds(f: Family, now: int)
      requires f in samples && f in history
      reads this
    {
      samples[f] == Within(history[f], Cutoff(now)) && (f !in configured ==> history[f] == [])
    }

    ghost predicate Valid()
      reads this
    {
      samples.Keys == {Ipv4, Ipv6} && history.Keys == {Ipv4, Ipv6} && Holds(Ipv4, clock) && Holds(Ipv6, clock)
    }

    constructor (windowSeconds: nat, configured: set<Family>, start: int)
      ensures Valid() && this.windowSeconds == windowSeconds && this.configured == configured && clock == start
      ensures history == map[Ipv4 := [], Ipv6 := []]
    {
      this.windowSeconds, this.configured, clock := windowSeconds, configured, start;
      samples := map[Ipv4 := [], Ipv6 := []];
      history := map[Ipv4 := [], Ipv6 := []];
    }

    /** One sampling round of both families under the lock. */
    method SampleOnce(now: int, v4: Option<real>, v6: Option<real>)
      requires Valid() && clock <= now
      modifies this
      ensures Valid() && clock == now
      ensures history[Ipv4] == old(history)[Ipv4] + if Ipv4 in configured then [Sample(now, v4)] else []
      ensures history[Ipv6] == old(history)[Ipv6] + if Ipv6 in configured then [Sample(now, v6)] else []
    {
      Record(Ipv4, if Ipv4 in configured then Some(Sample(now, v4)) else None, now);
      Record(Ipv6, if Ipv6 in configured then Some(Sample(now, v6)) else None, now);
      clock := now;
    }

    method Record(family: Family, sample: Option<Sample>, now: int)
      requires samples.Keys == {Ipv4, Ipv6} && history.Keys == {Ipv4, Ipv6}
      requires Holds(family, clock) && clock <= now && (sample.Some? <==> family in configured)
      modifies this`samples, this`history
      ensures samples.Keys == {Ipv4, Ipv6} && history.Keys == {Ipv4, Ipv6}
      ensures Holds(family, now)
      ensures history[family] == old(history)[family] + if sample.Some? then [sample.value] else []
      ensures forall f :: f != family ==> history[f] == old(history)[f] && samples[f] == old(samples)[f]
    {
      if sample.None? {
        return;
      }
      var list := samples[family] + [sample.value];
      WithinGlue(samples[family], [sample.value], Cutoff(now));
      WithinTwice(history[family], Cutoff(clock), Cutoff(now));
      WithinGlue(history[family], [sample.value], Cutoff(now));
      samples := samples[family := Within(list, Cutoff(now))];
      history := history[family := history[family] + [sample.value]];
    }
  }

  // ----- downsampling

  const MAX_POINTS := 288

  function Ceiling(x: real): int {
    -((-x).Floor)
  }

  /** `Chunk(size)`: pieces of `size` samples, the last one perhaps shorter. */
  function Chunks(samples: seq<Sample>, size: nat): (r: seq<seq<Sample>>)
    requires 0 < size
    ensures forall i :: 0 <= i < |r| ==> 0 < |r[i]| <= size
  {
    if samples == [] then []
    else if |samples| <= size then [samples]
    else [samples[..size]] + Chunks(samples[size..], size)
  }

  function Successes(samples: seq<Sample>): nat {
    if samples == [] then 0 else (if samples[0].latency.Some? then 1 else 0) + Successes(samples[1..])
  }

  function TotalLatency(samples: seq<Sample>): real {
    if samples == [] then 0.0
    else (if samples[0].latency.Some? then samples[0].latency.value else 0.0) + TotalLatency(samples[1..])
  }

  function Average(samples: seq<Sample>): Option<real> {
    if Successes(samples) > 0 then Some(TotalLatency(samples) / Successes(samples) as real) else None
  }

  /** `Math.Round(x, 2)`. */
  function Round2(x: real): real {
    Nearest(x * 100.0) as real / 100.0
  }

  /** Rounding moves a number by half a hundredth at most, and leaves hundredths alone. */
  lemma RoundedNear(x: real)
    ensures IsNear(Round2(x), x) && IsHundredths(Round2(x))
    ensures IsHundredths(x) ==> Round2(x) == x
  {
    var n := Nearest(x * 100.0);
    assert Round2(x) * 100.0 == n as real;
    assert (n as real).Floor == n;
  }

  function Rounded(x: Option<real>): Option<real> {
    if x.Some? then Some(Round2(x.value)) else None
  }

  function Point(chunk: seq<Sample>): Sample
    requires chunk != []
  {
    Sample(chunk[0].at, Rounded(Average(chunk)))
  }

  function ChunkSize(n: nat): int {
    Ceiling(n as real / MAX_POINTS as real)
  }

  function Points(chunks: seq<seq<Sample>>): (r: seq<Sample>)
    requires NonEmpty(chunks)
    ensures |r| == |chunks| && forall i :: 0 <= i < |r| ==> r[i] == Point(chunks[i])
  {
    seq(|chunks|, i requires 0 <= i < |chunks| => Point(chunks[i]))
  }

  lemma ChunkSizeBounds(n: nat)
    requires MAX_POINTS < n
    ensures var s := ChunkSize(n); 2 <= s && MAX_POINTS * (s - 1) < n <= MAX_POINTS * s
  {
    var x := n as real / MAX_POINTS as real;
    var s := ChunkSize(n);
    assert (s - 1) as real < x <= s as real;
    assert x * MAX_POINTS as real == n as real;
  }

  function Downsample(samples: seq<Sample>): seq<Sample> {
    if |samples| <= MAX_POINTS then samples
    else
      ChunkSizeBounds(|samples|);
      Points(Chunks(samples, ChunkSize(|samples|)))
  }

  function Flatten(chunks: seq<seq<Sample>>): seq<Sample> {
    if chunks == [] then [] else chunks[0] + Flatten(chunks[1..])
  }

  /** The chunks are consecutive pieces of the samples, all of full size but perhaps the last. */
  lemma {:induction false} ChunksPartition(samples: seq<Sample>, size: nat)
    requires 0 < size
    ensures var r := Chunks(samples, size);
            && Flatten(r) == samples
            && (samples != [] ==> size * (|r| - 1) < |samples| <= size * |r|)
            && forall i :: 0 <= i < |r| - 1 ==> |r[i]| == size
  {
    if |samples| > size {
      ChunksPartition(samples[size..], size);
      var rest := Chunks(samples[size..], size);
      var r := Chunks(samples, size);
      assert r[1..] == rest;
      assert samples[..size] + samples[size..] == samples;
      Distribute(size, |rest|);
    }
  }

  lemma Distribute(a: nat, b: nat)
    ensures a * (b + 1) == a * b + a && a * b == a * (b - 1) + a
  {
  }

  lemma Monotone(a: nat, b: int, c: int)
    requires b <= c
    ensures a * b <= a * c
  {
  }

  /** A long history is shown as between 145 and 288 points. */
  lemma PointCount(samples: seq<Sample>)
    requires MAX_POINTS < |samples|
    ensures 145 <= |Downsample(samples)| <= MAX_POINTS
  {
    var n, s := |samples|, ChunkSize(|samples|);
    ChunkSizeBounds(n);
    ChunksPartition(samples, s);
    var m := |Chunks(samples, s)|;
    if m > MAX_POINTS {
      Monotone(s, MAX_POINTS, m - 1);
    }
    if m < 145 {
      Monotone(s, m, 144);
    }
  }

  predicate IsNear(x: real, y: real) { -0.005 <= x - y <= 0.005 }

  predicate IsHundredths(x: real) { (x * 100.0).Floor as real == x * 100.0 }

  /** What a point says of its chunk's successes: nothing if there are none, and otherwise a number of
      hundredths nearest to their mean. */
  predicate StandsFor(point: Sample, chunk: seq<Sample>) {
    && (point.latency.Some? <==> Successes(chunk) > 0)
    && (point.latency.Some? ==>
          IsHundredths(point.latency.value) && IsNear(point.latency.value, TotalLatency(chunk) / Successes(chunk) as real))
  }

  /** A point carries its chunk's first time, is empty exactly when every probe of the chunk failed, and
      otherwise stands for the mean of the others. */
  lemma PointMeaning(samples: seq<Sample>, i: nat)
    requires MAX_POINTS < |samples| && i < |Downsample(samples)|
    ensures 0 < ChunkSize(|samples|)
    ensures var chunk, point := Chunks(samples, ChunkSize(|samples|))[i], Downsample(samples)[i];
            && point.at == chunk[0].at
            && (point.latency.None? <==> forall k :: 0 <= k < |chunk| ==> chunk[k].latency.None?)
            && StandsFor(point, chunk)
  {
    ChunkSizeBounds(|samples|);
    var chunk := Chunks(samples, ChunkSize(|samples|))[i];
    NoSuccess(chunk);
    PointStandsFor(chunk);
  }

  lemma PointStandsFor(chunk: seq<Sample>)
    requires chunk != []
    ensures StandsFor(Point(chunk), chunk)
  {
    if Successes(chunk) > 0 {
      RoundedNear(Average(chunk).value);
    }
  }

  lemma {:induction false} NoSuccess(samples: seq<Sample>)
    ensures Successes(samples) == 0 <==> forall k :: 0 <= k < |samples| ==> samples[k].latency.None?
  {
    if samples != [] {
      NoSuccess(samples[1..]);
      assert forall k :: 1 <= k < |samples| ==> samples[k] == samples[1..][k - 1];
    }
  }

  lemma {:induction false} TotalsGlue(a: seq<Sample>, b: seq<Sample>)
    ensures Successes(a + b) == Successes(a) + Successes(b)
    ensures TotalLatency(a + b) == TotalLatency(a) + TotalLatency(b)
  {
    if a == [] {
      assert a + b == b;
    } else {
      TotalsGlue(a[1..], b);
      assert (a + b)[1..] == a[1..] + b;
    }
  }

  /** What a point contributes: its latency, weighted by the successes of its chunk. */
  ghost function Weight(point: Sample, chunk: seq<Sample>): real {
    if point.latency.Some? then point.latency.value * Successes(chunk) as real else 0.0
  }

  ghost function Weighted(points: seq<Sample>, chunks: seq<seq<Sample>>): real
    requires |points| == |chunks|
  {
    if chunks == [] then 0.0 else Weight(points[0], chunks[0]) + Weighted(points[1..], chunks[1..])
  }

  ghost function Weights(chunks: seq<seq<Sample>>): nat {
    if chunks == [] then 0 else Successes(chunks[0]) + Weights(chunks[1..])
  }

  predicate IsWithin(x: real, y: real, successes: nat) { -0.005 * successes as real <= x - y <= 0.005 * successes as real }

  lemma {:induction false} FailuresAddNothing(samples: seq<Sample>)
    requires Successes(samples) == 0
    ensures TotalLatency(samples) == 0.0
  {
    if samples != [] {
      FailuresAddNothing(samples[1..]);
    }
  }

  lemma WeightIsTotal(point: Sample, chunk: seq<Sample>)
    requires StandsFor(point, chunk)
    ensures IsWithin(Weight(point, chunk), TotalLatency(chunk), Successes(chunk))
  {
    if Successes(chunk) > 0 {
      NearTotal(point.latency.value, TotalLatency(chunk), Successes(chunk));
    } else {
      FailuresAddNothing(chunk);
    }
  }

  lemma NearTotal(x: real, total: real, k: nat)
    requires 0 < k && IsNear(x, total / k as real)
    ensures IsWithin(x * k as real, total, k)
  {
    Scale(x, total / k as real, k);
    assert total / k as real * k as real == total;
  }

  lemma Scale(x: real, y: real, k: nat)
    requires IsNear(x, y)
    ensures IsWithin(x * k as real, y * k as real, k)
  {
    var n := k as real;
    assert x * n - y * n == (x - y) * n;
    assert -0.005 * n <= (x - y) * n <= 0.005 * n;
  }

  predicate NonEmpty(chunks: seq<seq<Sample>>) { forall i :: 0 <= i < |chunks| ==> 0 < |chunks[i]| }

  lemma {:induction false} WeightedIsTotal(chunks: seq<seq<Sample>>)
    requires NonEmpty(chunks)
    ensures Weights(chunks) == Successes(Flatten(chunks))
    ensures IsWithin(Weighted(Points(chunks), chunks), TotalLatency(Flatten(chunks)), Weights(chunks))
  {
    if chunks != [] {
      WeightedIsTotal(chunks[1..]);
      TotalsGlue(chunks[0], Flatten(chunks[1..]));
      PointStandsFor(chunks[0]);
      WeightIsTotal(Point(chunks[0]), chunks[0]);
      assert Points(chunks)[1..] == Points(chunks[1..]);
    }
  }

  /** Downsampling loses no latency: the points that are shown, weighted by the successes they stand for, add
      up to all successful latencies, but for half a hundredth of rounding for each success. So their
      weighted mean is within half a hundredth of the mean that the summary rounds and reports. */
  lemma LatencyConserved(samples: seq<Sample>)
    requires MAX_POINTS < |samples|
    ensures 0 < ChunkSize(|samples|) && |Downsample(samples)| == |Chunks(samples, ChunkSize(|samples|))|
    ensures var chunks := Chunks(samples, ChunkSize(|samples|));
            && Weights(chunks) == Successes(samples)
            && IsWithin(Weighted(Downsample(samples), chunks), TotalLatency(samples), Successes(samples))
            && (Successes(samples) > 0 ==>
                  IsNear(Weighted(Downsample(samples), chunks) / Weights(chunks) as real, Average(samples).value))
  {
    ChunkSizeBounds(|samples|);
    var chunks := Chunks(samples, ChunkSize(|samples|));
    ChunksPartition(samples, ChunkSize(|samples|));
    WeightedIsTotal(chunks);
    if Successes(samples) > 0 {
      Divide(Weighted(Downsample(samples), chunks), TotalLatency(samples), Successes(samples) as real);
    }
  }

  lemma Divide(x: real, y: real, n: real)
    requires n > 0.0 && -0.005 * n <= x - y <= 0.005 * n
    ensures IsNear(x / n, y / n)
  {
    DivideDifference(x, y, n);
    var r := (x - y) / n;
    assert r * n == x - y;
    if r > 0.005 {
      Larger(r, 0.005, n);
    } else if -0.005 > r {
      Larger(-0.005, r, n);
    }
  }

  lemma DivideDifference(x: real, y: real, n: real)
    requires n > 0.0
    ensures x / n - y / n == (x - y) / n
  {
  }

  lemma Larger(a: real, b: real, n: real)
    requires a > b && n > 0.0
    ensures a * n > b * n
  {
  }

  // ----- the window, sample by sample

  lemma {:induction false} WithinMember(a: seq<Sample>, cutoff: int, s: Sample)
    ensures s in Within(a, cutoff) <==> s in a && s.at >= cutoff
  {
    if a != [] {
      WithinMember(a[1..], cutoff, s);
      assert a == [a[0]] + a[1..];
    }
  }

  /** The window of a family has exactly its recorded samples of the last `windowSeconds` seconds. */
  lemma WindowHas(m: Monitor, family: Family, now: int, s: Sample)
    requires family in m.samples && family in m.history && m.Holds(family, now)
    ensures s in m.samples[family] <==> s in m.history[family] && now - s.at <= m.windowSeconds * 10_000_000
  {
    WithinMember(m.history[family], m.Cutoff(now), s);
  }

  /** A sample that is too old makes no difference, wherever it is. */
  lemma OldIsDropped(a: seq<Sample>, old_: Sample, b: seq<Sample>, cutoff: int)
    requires old_.at < cutoff
    ensures Within(a + [old_] + b, cutoff) == Within(a + b, cutoff)
  {
    WithinGlue(a + [old_], b, cutoff);
    WithinGlue(a, [old_], cutoff);
    WithinGlue(a, b, cutoff);
  }

  /** And nothing else is dropped. */
  lemma {:induction false} RecentAreKept(a: seq<Sample>, cutoff: int)
    requires forall i :: 0 <= i < |a| ==> a[i].at >= cutoff
    ensures Within(a, cutoff) == a
  {
    if a != [] {
      RecentAreKept(a[1..], cutoff);
    }
  }
}
