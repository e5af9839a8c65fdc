/** Temperature history: trimming after every reading equals filtering the whole log once. */
module History {
  import opened Basics

  datatype Point = Point(temp: int, at: Time)

  datatype History = History(cpu: seq<Point>, gpu: seq<Point>)

  const NoHistory := History([], [])

  /** The points strictly after `cutoff`, in order. */
  function After(points: seq<Point>, cutoff: Time): seq<Point> {
    if points == [] then []
    else
      After(points[..|points| - 1], cutoff)
      + if points[|points| - 1].at > cutoff then [points[|points| - 1]] else []
  }

  /** The change between the first and the last point of the last minute, in degrees a minute; nothing when
      they are too few or closer than a tenth of a minute. */
  ghost predicate IsTrend(points: seq<Point>, now: Time, trend: real) {
    var recent := After(points, now - 60_000_000_000);
    if |recent| < 2 || Span(recent) < 6_000_000_000 then trend == 0.0
    else trend * (Span(recent) as real) == ((recent[|recent| - 1].temp - recent[0].temp) * 60_000_000_000) as real
  }

  function Span(points: seq<Point>): Time
    requires points != []
  {
    points[|points| - 1].at - points[0].at
  }

  /** One recorded reading: when it was taken, and the cutoff of the trim that followed. */
  datatype Sample = Sample(reading: Reading, at: Time, cutoff: Time)

  function Record(h: History, s: Sample): History {
    History(After(h.cpu + [Point(s.reading.cpuMax, s.at)], s.cutoff),
            After(h.gpu + [Point(s.reading.gpuMax, s.at)], s.cutoff))
  }

  function RecordAll(samples: seq<Sample>): History {
    if samples == [] then NoHistory
    else Record(RecordAll(samples[..|samples| - 1]), samples[|samples| - 1])
  }

  function CpuLog(samples: seq<Sample>): seq<Point> {
    seq(|samples|, i requires 0 <= i < |samples| => Point(samples[i].reading.cpuMax, samples[i].at))
  }

  function GpuLog(samples: seq<Sample>): seq<Point> {
    seq(|samples|, i requires 0 <= i < |samples| => Point(samples[i].reading.gpuMax, samples[i].at))
  }

  /** A clock that never goes back, for readings and for cutoffs. */
  ghost predicate InOrder(samples: seq<Sample>) {
    forall i, j :: 0 <= i < j < |samples| ==>
      samples[i].at <= samples[j].at && samples[i].cutoff <= samples[j].cutoff
  }

  ghost predicate Sorted(points: seq<Point>) {
    forall i, j :: 0 <= i < j < |points| ==> points[i].at <= points[j].at
  }

  /** Same length and same instants, position by position. */
  ghost predicate Lockstep(a: seq<Point>, b: seq<Point>) {
    |a| == |b| && forall i :: 0 <= i < |a| ==> a[i].at == b[i].at
  }

  lemma AfterSnoc(points: seq<Point>, p: Point, cutoff: Time)
    ensures After(points + [p], cutoff) == After(points, cutoff) + if p.at > cutoff then [p] else []
  {
    assert (points + [p])[..|points|] == points;
  }

  /** Filtering by an older cutoff first loses nothing. */
  lemma {:induction false} AfterAbsorbs(points: seq<Point>, older: Time, newer: Time)
    requires older <= newer
    ensures After(After(points, older), newer) == After(points, newer)
    decreases |points|
  {
    if |points| > 0 {
      var init, last := points[..|points| - 1], points[|points| - 1];
      AfterAbsorbs(init, older, newer);
      if last.at > older {
        AfterSnoc(After(init, older), last, newer);
      } else {
        assert After(points, older) == After(init, older);
        assert After(points, newer) == After(init, newer);
      }
    }
  }

  lemma {:induction false} AfterKeeps(points: seq<Point>, cutoff: Time)
    ensures forall p <- After(points, cutoff) :: p in points && p.at > cutoff
    decreases |points|
  {
    if |points| > 0 {
      AfterKeeps(points[..|points| - 1], cutoff);
    }
  }

  lemma {:induction false} AfterSorted(points: seq<Point>, cutoff: Time)
    requires Sorted(points)
    ensures Sorted(After(points, cutoff))
    decreases |points|
  {
    if |points| > 0 {
      var init, last := points[..|points| - 1], points[|points| - 1];
      AfterSorted(init, cutoff);
      AfterKeeps(init, cutoff);
      var kept := After(init, cutoff);
      forall i | 0 <= i < |kept| ensures kept[i].at <= last.at {
        assert kept[i] in init;
      }
    }
  }

  lemma {:induction false} AfterLockstep(a: seq<Point>, b: seq<Point>, cutoff: Time)
    requires Lockstep(a, b)
    ensures Lockstep(After(a, cutoff), After(b, cutoff))
    decreases |a|
  {
    if |a| > 0 {
      AfterLockstep(a[..|a| - 1], b[..|b| - 1], cutoff);
    }
  }

  /** Incremental trimming is one-shot filtering of the full log by the latest cutoff. */
  lemma {:induction false} TrimmingIsFiltering(samples: seq<Sample>)
    requires InOrder(samples) && |samples| > 0
    ensures var cutoff := samples[|samples| - 1].cutoff;
            RecordAll(samples) == History(After(CpuLog(samples), cutoff), After(GpuLog(samples), cutoff))
    decreases |samples|
  {
    var init, last := samples[..|samples| - 1], samples[|samples| - 1];
    var cpu, gpu := Point(last.reading.cpuMax, last.at), Point(last.reading.gpuMax, last.at);
    assert CpuLog(samples) == CpuLog(init) + [cpu];
    assert GpuLog(samples) == GpuLog(init) + [gpu];
    if |init| > 0 {
      TrimmingIsFiltering(init);
      var older := init[|init| - 1].cutoff;
      AfterAbsorbs(CpuLog(init), older, last.cutoff);
      AfterAbsorbs(GpuLog(init), older, last.cutoff);
      AfterSnoc(After(CpuLog(init), older), cpu, last.cutoff);
      AfterSnoc(After(GpuLog(init), older), gpu, last.cutoff);
    }
    AfterSnoc(CpuLog(init), cpu, last.cutoff);
    AfterSnoc(GpuLog(init), gpu, last.cutoff);
  }

  /** Whatever the clock does, the two histories keep step. */
  lemma {:induction false} HistoriesInLockstep(samples: seq<Sample>)
    ensures Lockstep(RecordAll(samples).cpu, RecordAll(samples).gpu)
    decreases |samples|
  {
    if |samples| > 0 {
      var init, last := samples[..|samples| - 1], samples[|samples| - 1];
      HistoriesInLockstep(init);
      var h := RecordAll(init);
      AfterLockstep(h.cpu + [Point(last.reading.cpuMax, last.at)], h.gpu + [Point(last.reading.gpuMax, last.at)], last.cutoff);
    }
  }

  lemma HistoriesSorted(samples: seq<Sample>)
    requires InOrder(samples)
    ensures Sorted(RecordAll(samples).cpu) && Sorted(RecordAll(samples).gpu)
  {
    if |samples| > 0 {
      var cutoff := samples[|samples| - 1].cutoff;
      TrimmingIsFiltering(samples);
      AfterSorted(CpuLog(samples), cutoff);
      AfterSorted(GpuLog(samples), cutoff);
    }
  }

  lemma RecordAllSnoc(samples: seq<Sample>, s: Sample)
    ensures RecordAll(samples + [s]) == Record(RecordAll(samples), s)
  {
    assert (samples + [s])[..|samples|] == samples;
  }
}
