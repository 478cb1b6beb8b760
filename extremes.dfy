/** The two run scanners of the analysis utilities: `detect_extremes` groups
    the samples above a threshold into events, and the gap scan of
    `quality_check` records long stretches of missing values. Both walk a
    boolean mask with an "inside a run" flag; the float comparisons that
    produce the mask (`ts > threshold`, `np.isnan`) are taken as given. The
    time index is assumed unique and sorted, so a sample is named by its
    position; whether slicing it includes the end label (a date index) or
    not (an integer index, sliced by position) is an input. */
module Extremes {
  import opened Wrappers

  /** A run of flagged samples: first and last position, and its length. */
  datatype Event = Event(start: nat, end: nat, duration: nat)

  /** Every sample of `s..e` (inclusive) is flagged. */
  predicate AllSet(mask: seq<bool>, s: nat, e: nat)
    requires e < |mask|
  {
    forall j :: s <= j <= e ==> mask[j]
  }

  /** `s..e` (inclusive) is a maximal run of `true` in `mask`. */
  predicate IsRun(mask: seq<bool>, s: nat, e: nat)
  {
    s <= e < |mask| && AllSet(mask, s, e) && (s == 0 || !mask[s - 1]) && (e == |mask| - 1 || !mask[e + 1])
  }

  /** No run of `true` crosses from `i - 1` into `i`. */
  predicate Boundary(mask: seq<bool>, i: nat)
  {
    i <= |mask| && (i == 0 || i == |mask| || !mask[i - 1] || !mask[i])
  }

  /** Last position of the run of `true` that contains `i`. */
  function RunEnd(mask: seq<bool>, i: nat): (e: nat)
    requires i < |mask| && mask[i]
    ensures i <= e < |mask| && AllSet(mask, i, e) && (e == |mask| - 1 || !mask[e + 1])
    decreases |mask| - i
  {
    if i + 1 < |mask| && mask[i + 1] then RunEnd(mask, i + 1) else i
  }

  /** The maximal runs of `true` in `mask[i..]`, in order. */
  function RunsFrom(mask: seq<bool>, i: nat): seq<Event>
    requires Boundary(mask, i)
    decreases |mask| - i
  {
    if i == |mask| then []
    else if !mask[i] then RunsFrom(mask, i + 1)
    else
      var e := RunEnd(mask, i);
      [Event(i, e, e - i + 1)] + RunsFrom(mask, e + 1)
  }

  /** Every event of `r` is a maximal run of `mask` at or after `i`, with its
      length. */
  predicate RunsAfter(mask: seq<bool>, i: nat, r: seq<Event>)
  {
    forall k :: 0 <= k < |r| ==>
      i <= r[k].start && IsRun(mask, r[k].start, r[k].end) && r[k].duration == r[k].end - r[k].start + 1
  }

  /** Every listed run is maximal and carries its length. */
  lemma {:induction false} RunsFromAfter(mask: seq<bool>, i: nat)
    requires Boundary(mask, i)
    ensures RunsAfter(mask, i, RunsFrom(mask, i))
    decreases |mask| - i
  {
    if i < |mask| {
      if !mask[i] {
        RunsFromAfter(mask, i + 1);
      } else {
        var e := RunEnd(mask, i);
        var r := RunsFrom(mask, i);
        var rest := RunsFrom(mask, e + 1);
        RunsFromAfter(mask, e + 1);
        assert r == [Event(i, e, e - i + 1)] + rest;
        assert IsRun(mask, i, e);
        forall k | 0 < k < |r|
          ensures i <= r[k].start && IsRun(mask, r[k].start, r[k].end) && r[k].duration == r[k].end - r[k].start + 1
        {
          assert r[k] == rest[k - 1];
        }
      }
    }
  }

  /** The runs come in order with at least one unflagged sample between two
      of them. */
  lemma {:induction false} RunsFromApart(mask: seq<bool>, i: nat)
    requires Boundary(mask, i)
    ensures Apart(RunsFrom(mask, i))
    decreases |mask| - i
  {
    if i < |mask| {
      if !mask[i] {
        RunsFromApart(mask, i + 1);
      } else {
        var e := RunEnd(mask, i);
        RunsFromApart(mask, e + 1);
        RunsPastGap(mask, e + 1);
        var rest := RunsFrom(mask, e + 1);
        var r := RunsFrom(mask, i);
        assert r == [Event(i, e, e - i + 1)] + rest;
        forall k, l | 0 <= k < l < |r|
          ensures r[k].end + 1 < r[l].start
        {
          assert r[l] == rest[l - 1];
          if k > 0 {
            assert r[k] == rest[k - 1];
          }
        }
      }
    }
  }

  /** The runs after an unflagged sample start past it. */
  lemma RunsPastGap(mask: seq<bool>, i: nat)
    requires i <= |mask| && (i == |mask| || !mask[i])
    ensures Boundary(mask, i)
    ensures forall l :: 0 <= l < |RunsFrom(mask, i)| ==> i < RunsFrom(mask, i)[l].start
  {
    RunsFromAfter(mask, i);
    var rest := RunsFrom(mask, i);
    forall l | 0 <= l < |rest|
      ensures i < rest[l].start
    {
      assert IsRun(mask, rest[l].start, rest[l].end);
      assert mask[rest[l].start];
    }
  }

  function Runs(mask: seq<bool>): seq<Event>
  {
    RunsFrom(mask, 0)
  }

  /** Every maximal run at or after a boundary is listed. */
  lemma {:induction false} RunsFromComplete(mask: seq<bool>, i: nat, s: nat, e: nat)
    requires Boundary(mask, i) && i <= s && IsRun(mask, s, e)
    ensures Event(s, e, e - s + 1) in RunsFrom(mask, i)
    decreases |mask| - i
  {
    if !mask[i] {
      RunsFromComplete(mask, i + 1, s, e);
    } else {
      var end := RunEnd(mask, i);
      if s == i {
        assert end == e;
      } else {
        assert s > end + 1;
        RunsFromComplete(mask, end + 1, s, e);
      }
    }
  }

  /** The listed runs are exactly the maximal runs. */
  lemma RunsExactly(mask: seq<bool>, ev: Event)
    ensures ev in Runs(mask) <==> IsRun(mask, ev.start, ev.end) && ev.duration == ev.end - ev.start + 1
  {
    RunsFromAfter(mask, 0);
    var r := Runs(mask);
    if ev in r {
      var k :| 0 <= k < |r| && r[k] == ev;
      assert IsRun(mask, r[k].start, r[k].end);
    }
    if IsRun(mask, ev.start, ev.end) && ev.duration == ev.end - ev.start + 1 {
      RunsFromComplete(mask, 0, ev.start, ev.end);
    }
  }

  /** `duration is None or len(event_data) >= duration` */
  predicate Passes(ev: Event, duration: Option<int>)
  {
    duration.None? || ev.duration >= duration.value
  }

  /** The events that pass the duration filter, in order. */
  function Kept(events: seq<Event>, duration: Option<int>): seq<Event>
  {
    if events == [] then []
    else (if Passes(events[0], duration) then [events[0]] else []) + Kept(events[1..], duration)
  }

  /** Consecutive events are separated by at least one unflagged sample. */
  predicate Apart(events: seq<Event>)
  {
    forall k, l :: 0 <= k < l < |events| ==> events[k].end + 1 < events[l].start
  }

  /** The filter keeps exactly the passing events. */
  lemma {:induction false} KeptMembers(events: seq<Event>, duration: Option<int>)
    ensures forall x :: x in Kept(events, duration) <==> x in events && Passes(x, duration)
    decreases |events|
  {
    if events != [] {
      KeptMembers(events[1..], duration);
      assert events == [events[0]] + events[1..];
    }
  }

  /** Filtering keeps events apart. */
  lemma {:induction false} KeptApart(events: seq<Event>, duration: Option<int>)
    requires Apart(events)
    ensures Apart(Kept(events, duration))
    decreases |events|
  {
    if events != [] {
      var tail := events[1..];
      assert forall k :: 0 <= k < |tail| ==> tail[k] == events[k + 1];
      KeptApart(tail, duration);
      KeptMembers(tail, duration);
      var rest := Kept(tail, duration);
      if Passes(events[0], duration) {
        forall l | 0 <= l < |rest|
          ensures events[0].end + 1 < rest[l].start
        {
          assert rest[l] in rest;
          var j :| 0 <= j < |tail| && tail[j] == rest[l];
          assert events[j + 1] == rest[l];
        }
        var r := Kept(events, duration);
        assert r == [events[0]] + rest;
        forall k, l | 0 <= k < l < |r|
          ensures r[k].end + 1 < r[l].start
        {
          assert r[l] == rest[l - 1];
          if k > 0 {
            assert r[k] == rest[k - 1];
          }
        }
      } else {
        assert Kept(events, duration) == rest;
      }
    }
  }

  /** The record `detect_extremes` makes of a run, whose `duration` is its
      length: `len(ts[event_start:event_end])`. A date index is sliced by
      label and includes the last sample; an integer index is sliced by
      position and leaves it out. `byLabel` says which. */
  function Report(run: Event, byLabel: bool): Event
  {
    Event(run.start, run.end, if byLabel || run.duration == 0 then run.duration else run.duration - 1)
  }

  /** The records of `runs`, one per run, in order. */
  function Reported(runs: seq<Event>, byLabel: bool): seq<Event>
  {
    if runs == [] then [] else [Report(runs[0], byLabel)] + Reported(runs[1..], byLabel)
  }

  /** Record `k` is the record of run `k`. */
  lemma {:induction false} ReportedEach(runs: seq<Event>, byLabel: bool)
    ensures |Reported(runs, byLabel)| == |runs|
    ensures forall k :: 0 <= k < |runs| ==> Reported(runs, byLabel)[k] == Report(runs[k], byLabel)
    decreases |runs|
  {
    if runs != [] {
      var rest := Reported(runs[1..], byLabel);
      ReportedEach(runs[1..], byLabel);
      assert Reported(runs, byLabel) == [Report(runs[0], byLabel)] + rest;
      forall k | 0 < k < |runs|
        ensures Reported(runs, byLabel)[k] == Report(runs[k], byLabel)
      {
        assert runs[1..][k - 1] == runs[k];
      }
    }
  }

  /** The events `detect_extremes` reports for `mask[i..]`: each run's
      record, when it passes the filter. */
  function EventsFrom(mask: seq<bool>, i: nat, duration: Option<int>, byLabel: bool): seq<Event>
    requires Boundary(mask, i)
    decreases |mask| - i
  {
    if i == |mask| then []
    else if !mask[i] then EventsFrom(mask, i + 1, duration, byLabel)
    else
      var e := RunEnd(mask, i);
      var ev := Event(i, e, if byLabel then e - i + 1 else e - i);
      (if Passes(ev, duration) then [ev] else []) + EventsFrom(mask, e + 1, duration, byLabel)
  }

  /** The events `detect_extremes` reports for `mask`. */
  function Events(mask: seq<bool>, duration: Option<int>, byLabel: bool): seq<Event>
  {
    EventsFrom(mask, 0, duration, byLabel)
  }

  /** The events are the records of the runs that pass the filter. */
  lemma {:induction false} EventsFromKept(mask: seq<bool>, i: nat, duration: Option<int>, byLabel: bool)
    requires Boundary(mask, i)
    ensures EventsFrom(mask, i, duration, byLabel) == Kept(Reported(RunsFrom(mask, i), byLabel), duration)
    decreases |mask| - i
  {
    if i < |mask| {
      if !mask[i] {
        EventsFromKept(mask, i + 1, duration, byLabel);
      } else {
        var e := RunEnd(mask, i);
        var run := Event(i, e, e - i + 1);
        var rest := RunsFrom(mask, e + 1);
        EventsFromKept(mask, e + 1, duration, byLabel);
        assert RunsFrom(mask, i) == [run] + rest;
        assert ([run] + rest)[1..] == rest;
        var rep := Reported(rest, byLabel);
        assert Reported(RunsFrom(mask, i), byLabel) == [Report(run, byLabel)] + rep;
        assert ([Report(run, byLabel)] + rep)[1..] == rep;
      }
    }
  }

  /** The events are exactly the maximal runs whose slice passes the
      filter, each with the length of its slice (one less than the run's
      under an integer index), in order and separated by at least one
      unflagged sample. */
  lemma EventsExactly(mask: seq<bool>, duration: Option<int>, byLabel: bool, ev: Event)
    ensures ev in Events(mask, duration, byLabel) <==>
              IsRun(mask, ev.start, ev.end) && Passes(ev, duration) &&
              ev.duration == if byLabel then ev.end - ev.start + 1 else ev.end - ev.start
    ensures Apart(Events(mask, duration, byLabel))
  {
    var rep := Reported(Runs(mask), byLabel);
    EventsFromKept(mask, 0, duration, byLabel);
    ReportedExactly(mask, byLabel, ev);
    ReportedApart(mask, byLabel);
    KeptMembers(rep, duration);
    KeptApart(rep, duration);
  }

  /** The records are exactly the maximal runs, each with its slice length. */
  lemma ReportedExactly(mask: seq<bool>, byLabel: bool, ev: Event)
    ensures ev in Reported(Runs(mask), byLabel) <==>
              IsRun(mask, ev.start, ev.end) && ev.duration == if byLabel then ev.end - ev.start + 1 else ev.end - ev.start
  {
    var runs := Runs(mask);
    var rep := Reported(runs, byLabel);
    ReportedEach(runs, byLabel);
    if ev in rep {
      var k :| 0 <= k < |rep| && rep[k] == ev;
      RunsFromAfter(mask, 0);
      assert RunsAfter(mask, 0, runs);
      assert IsRun(mask, runs[k].start, runs[k].end) && runs[k].duration == runs[k].end - runs[k].start + 1;
      assert ev == Report(runs[k], byLabel);
    }
    if IsRun(mask, ev.start, ev.end) && ev.duration == (if byLabel then ev.end - ev.start + 1 else ev.end - ev.start) {
      var run := Event(ev.start, ev.end, ev.end - ev.start + 1);
      RunsExactly(mask, run);
      var k :| 0 <= k < |runs| && runs[k] == run;
      assert rep[k] == ev;
    }
  }

  /** The records keep the runs apart. */
  lemma ReportedApart(mask: seq<bool>, byLabel: bool)
    ensures Apart(Reported(Runs(mask), byLabel))
  {
    var runs := Runs(mask);
    var rep := Reported(runs, byLabel);
    ReportedEach(runs, byLabel);
    RunsFromApart(mask, 0);
    forall k, l | 0 <= k < l < |rep|
      ensures rep[k].end + 1 < rep[l].start
    {
      assert rep[k].end == runs[k].end && rep[l].start == runs[l].start;
    }
  }

  /** A flagged sample extends the run open since `s`. */
  lemma ExtendRun(mask: seq<bool>, s: nat, i: nat)
    requires s <= i < |mask| && mask[i] && (s < i ==> AllSet(mask, s, i - 1))
    ensures AllSet(mask, s, i)
  {
  }

  /** An unflagged sample starts no run. */
  lemma SkipStep(mask: seq<bool>, i: nat, duration: Option<int>, byLabel: bool)
    requires Boundary(mask, i) && i < |mask| && !mask[i]
    ensures Boundary(mask, i + 1) && EventsFrom(mask, i, duration, byLabel) == EventsFrom(mask, i + 1, duration, byLabel)
  {
  }

  /** A run `start..stop - 1` closed by an unflagged sample or the end of the
      series is the next run listed. */
  lemma RunsClose(mask: seq<bool>, start: nat, stop: nat)
    requires Boundary(mask, start) && start < stop <= |mask|
    requires AllSet(mask, start, stop - 1)
    requires stop == |mask| || !mask[stop]
    ensures Boundary(mask, stop)
    ensures RunsFrom(mask, start) == [Event(start, stop - 1, stop - start)] + RunsFrom(mask, stop)
  {
    RunEndAt(mask, start, stop - 1);
  }

  /** A run of flagged samples followed by an unflagged one or the end ends
      there. */
  lemma {:induction false} RunEndAt(mask: seq<bool>, i: nat, e: nat)
    requires i <= e < |mask| && AllSet(mask, i, e) && (e == |mask| - 1 || !mask[e + 1])
    ensures RunEnd(mask, i) == e
    decreases e - i
  {
    if i < e {
      RunEndAt(mask, i + 1, e);
    }
  }

  /** The events still to come from `start` on, where a run `start..stop - 1`
      is closed by an unflagged sample or the end of the series: that run's
      record, if it passes the filter, and then the events from `stop` on. */
  lemma CloseStep(mask: seq<bool>, start: nat, stop: nat, duration: Option<int>, byLabel: bool)
    requires Boundary(mask, start) && start < stop <= |mask|
    requires AllSet(mask, start, stop - 1)
    requires stop == |mask| || !mask[stop]
    ensures Boundary(mask, stop)
    ensures var ev := Event(start, stop - 1, if byLabel then stop - start else stop - 1 - start);
            EventsFrom(mask, start, duration, byLabel) ==
              (if Passes(ev, duration) then [ev] else []) + EventsFrom(mask, stop, duration, byLabel)
  {
    assert mask[start];
    RunEndAt(mask, start, stop - 1);
  }

  /** Closing the run at the unflagged sample `i` and stepping past it. */
  lemma CloseAndSkip(mask: seq<bool>, start: nat, i: nat, duration: Option<int>, byLabel: bool, events: seq<Event>,
                     all: seq<Event>)
    requires Boundary(mask, start) && start < i < |mask| && AllSet(mask, start, i - 1) && !mask[i]
    requires events + EventsFrom(mask, start, duration, byLabel) == all
    ensures Boundary(mask, i + 1)
    ensures var ev := Event(start, i - 1, if byLabel then i - start else i - 1 - start);
            (if Passes(ev, duration) then events + [ev] else events) + EventsFrom(mask, i + 1, duration, byLabel) == all
  {
    var ev := Event(start, i - 1, if byLabel then i - start else i - 1 - start);
    CloseStep(mask, start, i, duration, byLabel);
    SkipStep(mask, i, duration, byLabel);
    var rest := EventsFrom(mask, i + 1, duration, byLabel);
    if Passes(ev, duration) {
      assert events + ([ev] + rest) == (events + [ev]) + rest;
    } else {
      assert [] + rest == rest;
    }
  }

  /** Closing the run `start..` at the end of the series leaves nothing. */
  lemma CloseAtEnd(mask: seq<bool>, start: nat, duration: Option<int>, byLabel: bool, events: seq<Event>,
                   all: seq<Event>)
    requires Boundary(mask, start) && start < |mask| && AllSet(mask, start, |mask| - 1)
    requires events + EventsFrom(mask, start, duration, byLabel) == all
    ensures var ev := Event(start, |mask| - 1, if byLabel then |mask| - start else |mask| - 1 - start);
            (if Passes(ev, duration) then events + [ev] else events) == all
  {
    CloseStep(mask, start, |mask|, duration, byLabel);
    EndStep(mask, duration, byLabel);
    assert events + [] == events;
  }

  /** Past the last sample nothing is left. */
  lemma EndStep(mask: seq<bool>, duration: Option<int>, byLabel: bool)
    ensures EventsFrom(mask, |mask|, duration, byLabel) == []
  {
  }

  /** `detect_extremes` accepts these threshold types. */
  const ThresholdTypes: set<string> := {"percentile", "absolute", "std"}

  datatype ThresholdError = UnknownThresholdType(name: string)

  /** `detect_extremes`: an unknown threshold type raises; otherwise the
      grouping loop runs over `mask`, the samples above the threshold of
      that type. */
  method DetectExtremes(thresholdType: string, mask: seq<bool>, duration: Option<int>, byLabel: bool)
    returns (r: Result<seq<Event>, ThresholdError>)
    ensures r.Err? <==> thresholdType !in ThresholdTypes
    ensures r.Err? ==> r.error == UnknownThresholdType(thresholdType)
    ensures r.Ok? ==> r.value == Events(mask, duration, byLabel)
  {
    if thresholdType != "percentile" && thresholdType != "absolute" && thresholdType != "std" {
      return Err(UnknownThresholdType(thresholdType));
    }
    var events := GroupEvents(mask, duration, byLabel);
    r := Ok(events);
  }

  /** The grouping loop of `detect_extremes`. */
  method GroupEvents(mask: seq<bool>, duration: Option<int>, byLabel: bool) returns (events: seq<Event>)
    ensures events == Events(mask, duration, byLabel)
  {
    events := [];
    var inEvent := false;
    var start := 0;
    var i := 0;
    ghost var pos := 0;
    ghost var all := Events(mask, duration, byLabel);
    while i < |mask|
      invariant pos <= i <= |mask| && Boundary(mask, pos)
      invariant events + EventsFrom(mask, pos, duration, byLabel) == all
      invariant if inEvent then pos == start < i && AllSet(mask, start, i - 1) else pos == i
    {
      if mask[i] && !inEvent {
        inEvent := true;
        start := i;
        ExtendRun(mask, i, i);
      } else if !mask[i] && inEvent {
        inEvent := false;
        var ev := Event(start, i - 1, if byLabel then i - start else i - 1 - start);
        CloseAndSkip(mask, start, i, duration, byLabel, events, all);
        if Passes(ev, duration) {
          events := events + [ev];
        }
        pos := i + 1;
      } else if !mask[i] {
        SkipStep(mask, i, duration, byLabel);
        pos := i + 1;
      } else {
        ExtendRun(mask, start, i);
      }
      i := i + 1;
    }
    if inEvent {
      var ev := Event(start, |mask| - 1, if byLabel then |mask| - start else |mask| - 1 - start);
      CloseAtEnd(mask, start, duration, byLabel, events, all);
      if Passes(ev, duration) {
        events := events + [ev];
      }
    } else {
      EndStep(mask, duration, byLabel);
      assert events + [] == events;
    }
  }

  // ---- the gap scan of quality_check ----

  /** A recorded gap: first missing position, the position that closed it,
      and its length. */
  datatype Gap = Gap(start: nat, stop: nat, length: nat)

  /** The runs of `events` closed before position `n` and longer than
      `maxGap`, as gaps. */
  function LongGaps(events: seq<Event>, n: nat, maxGap: int): seq<Gap>
  {
    if events == [] then []
    else
      var ev := events[0];
      (if ev.end + 1 < n && ev.duration > maxGap then [Gap(ev.start, ev.end + 1, ev.duration)] else []) +
      LongGaps(events[1..], n, maxGap)
  }

  lemma {:induction false} LongGapsMembers(events: seq<Event>, n: nat, maxGap: int)
    ensures forall g :: g in LongGaps(events, n, maxGap) <==>
              1 <= g.stop < n && Event(g.start, g.stop - 1, g.length) in events && g.length > maxGap
    decreases |events|
  {
    if events != [] {
      LongGapsMembers(events[1..], n, maxGap);
      assert events == [events[0]] + events[1..];
    }
  }

  /** The gaps the scan of a NaN mask records. */
  function Gaps(nanMask: seq<bool>, maxGap: int): seq<Gap>
  {
    LongGaps(Runs(nanMask), |nanMask|, maxGap)
  }

  /** A gap is recorded exactly for a maximal run of missing values that a
      present value closes and that is longer than `maxGap`; a run reaching
      the end of the series is never recorded. */
  lemma GapsExactly(nanMask: seq<bool>, maxGap: int, g: Gap)
    ensures g in Gaps(nanMask, maxGap) <==>
              1 <= g.stop < |nanMask| && IsRun(nanMask, g.start, g.stop - 1) && g.length == g.stop - g.start &&
              g.length > maxGap
  {
    LongGapsMembers(Runs(nanMask), |nanMask|, maxGap);
    if g.stop >= 1 {
      RunsExactly(nanMask, Event(g.start, g.stop - 1, g.length));
    }
  }

  lemma GapSkip(mask: seq<bool>, i: nat, maxGap: int)
    requires Boundary(mask, i) && i < |mask| && !mask[i]
    ensures Boundary(mask, i + 1) && LongGaps(RunsFrom(mask, i), |mask|, maxGap) == LongGaps(RunsFrom(mask, i + 1), |mask|, maxGap)
  {
  }

  /** Closing the gap at the present sample `i` and stepping past it. */
  lemma GapCloseAndSkip(mask: seq<bool>, start: nat, i: nat, maxGap: int, gaps: seq<Gap>, all: seq<Gap>)
    requires Boundary(mask, start) && start < i < |mask| && AllSet(mask, start, i - 1) && !mask[i]
    requires gaps + LongGaps(RunsFrom(mask, start), |mask|, maxGap) == all
    ensures Boundary(mask, i + 1)
    ensures (if i - start > maxGap then gaps + [Gap(start, i, i - start)] else gaps) +
              LongGaps(RunsFrom(mask, i + 1), |mask|, maxGap) == all
  {
    var ev := Event(start, i - 1, i - start);
    RunsClose(mask, start, i);
    assert ([ev] + RunsFrom(mask, i))[1..] == RunsFrom(mask, i);
    var head := if i - start > maxGap then [Gap(start, i, i - start)] else [];
    assert LongGaps(RunsFrom(mask, start), |mask|, maxGap) == head + LongGaps(RunsFrom(mask, i), |mask|, maxGap);
    GapSkip(mask, i, maxGap);
    var rest := LongGaps(RunsFrom(mask, i + 1), |mask|, maxGap);
    if i - start > maxGap {
      assert gaps + (head + rest) == (gaps + head) + rest;
    } else {
      assert head + rest == rest;
    }
  }

  /** A run still open at the end of the series records nothing. */
  lemma GapEnd(mask: seq<bool>, start: nat, maxGap: int)
    requires Boundary(mask, start) && start < |mask| && AllSet(mask, start, |mask| - 1)
    ensures LongGaps(RunsFrom(mask, start), |mask|, maxGap) == []
  {
    var ev := Event(start, |mask| - 1, |mask| - start);
    RunsClose(mask, start, |mask|);
    assert ([ev] + RunsFrom(mask, |mask|))[1..] == RunsFrom(mask, |mask|);
  }

  /** What the gap loop knows before sample `i`: the gaps recorded so far,
      followed by those of the runs from `pos` on, are all the gaps; an open
      gap started at `pos` and covers the samples up to `i`. */
  ghost predicate GapLoop(mask: seq<bool>, maxGap: int, all: seq<Gap>, gaps: seq<Gap>, pos: nat, i: nat,
                          inGap: bool)
  {
    pos <= i <= |mask| && Boundary(mask, pos) &&
    gaps + LongGaps(RunsFrom(mask, pos), |mask|, maxGap) == all &&
    (if inGap then pos < i && AllSet(mask, pos, i - 1) else pos == i)
  }

  lemma GapOpen(mask: seq<bool>, maxGap: int, all: seq<Gap>, gaps: seq<Gap>, i: nat)
    requires GapLoop(mask, maxGap, all, gaps, i, i, false) && i < |mask| && mask[i]
    ensures GapLoop(mask, maxGap, all, gaps, i, i + 1, true)
  {
    ExtendRun(mask, i, i);
  }

  lemma GapGrow(mask: seq<bool>, maxGap: int, all: seq<Gap>, gaps: seq<Gap>, start: nat, i: nat)
    requires GapLoop(mask, maxGap, all, gaps, start, i, true) && i < |mask| && mask[i]
    ensures GapLoop(mask, maxGap, all, gaps, start, i + 1, true)
  {
    ExtendRun(mask, start, i);
  }

  lemma GapClose(mask: seq<bool>, maxGap: int, all: seq<Gap>, gaps: seq<Gap>, start: nat, i: nat)
    requires GapLoop(mask, maxGap, all, gaps, start, i, true) && i < |mask| && !mask[i]
    ensures GapLoop(mask, maxGap, all, if i - start > maxGap then gaps + [Gap(start, i, i - start)] else gaps,
                    i + 1, i + 1, false)
  {
    GapCloseAndSkip(mask, start, i, maxGap, gaps, all);
  }

  lemma GapPass(mask: seq<bool>, maxGap: int, all: seq<Gap>, gaps: seq<Gap>, i: nat)
    requires GapLoop(mask, maxGap, all, gaps, i, i, false) && i < |mask| && !mask[i]
    ensures GapLoop(mask, maxGap, all, gaps, i + 1, i + 1, false)
  {
    GapSkip(mask, i, maxGap);
  }

  lemma GapDone(mask: seq<bool>, maxGap: int, all: seq<Gap>, gaps: seq<Gap>, pos: nat, inGap: bool)
    requires GapLoop(mask, maxGap, all, gaps, pos, |mask|, inGap)
    ensures gaps == all
  {
    if inGap {
      GapEnd(mask, pos, maxGap);
    } else {
      EndGaps(mask, maxGap);
    }
  }

  /** The gap loop of `quality_check` over `np.isnan(time_series)`. */
  method GapScan(nanMask: seq<bool>, maxGap: int) returns (gaps: seq<Gap>)
    ensures gaps == Gaps(nanMask, maxGap)
  {
    gaps := [];
    var inGap := false;
    var gapStart := 0;
    var i := 0;
    ghost var all := Gaps(nanMask, maxGap);
    while i < |nanMask|
      invariant GapLoop(nanMask, maxGap, all, gaps, if inGap then gapStart else i, i, inGap)
    {
      if nanMask[i] && !inGap {
        GapOpen(nanMask, maxGap, all, gaps, i);
        inGap := true;
        gapStart := i;
      } else if !nanMask[i] && inGap {
        GapClose(nanMask, maxGap, all, gaps, gapStart, i);
        inGap := false;
        var gapLength := i - gapStart;
        if gapLength > maxGap {
          gaps := gaps + [Gap(gapStart, i, gapLength)];
        }
      } else if !nanMask[i] {
        GapPass(nanMask, maxGap, all, gaps, i);
      } else {
        GapGrow(nanMask, maxGap, all, gaps, gapStart, i);
      }
      i := i + 1;
    }
    GapDone(nanMask, maxGap, all, gaps, if inGap then gapStart else i, inGap);
  }

  lemma EndGaps(mask: seq<bool>, maxGap: int)
    ensures LongGaps(RunsFrom(mask, |mask|), |mask|, maxGap) == []
  {
  }

  /** `max(g[2] for g in gaps) if gaps else 0` */
  function MaxGapLength(gaps: seq<Gap>): (r: nat)
    ensures forall k :: 0 <= k < |gaps| ==> gaps[k].length <= r
    ensures gaps == [] ==> r == 0
    ensures gaps != [] ==> exists k :: 0 <= k < |gaps| && gaps[k].length == r
  {
    if gaps == [] then 0
    else
      var m := MaxGapLength(gaps[..|gaps| - 1]);
      var last := gaps[|gaps| - 1].length;
      if last >= m then last else m
  }

  /** The part of the result of `quality_check` the model computes. */
  datatype Quality = Quality(coverage: real, outOfRangePercent: Option<real>, longGaps: Option<seq<Gap>>,
                             maxGapLength: Option<nat>, pass: bool)

  /** Whether the gap scan runs: a time dimension and a truthy `max_gap`. */
  predicate Scans(hasTime: bool, maxGap: Option<int>)
  {
    hasTime && maxGap.Some? && maxGap.value != 0
  }

  /** `quality_check` on an array of `size` values, `nanCount` of them NaN,
      `outOfRange` of the others outside `valid_range` (None without a
      range), and the NaN mask of the series of means over time. None stands
      for the division by zero of an empty array. */
  function QualityOf(size: nat, nanCount: nat, outOfRange: Option<nat>, hasTime: bool, timeNan: seq<bool>,
                     maxGap: Option<int>, minCoverage: real): Option<Quality>
  {
    if size == 0 then None
    else
      var coverage := 1.0 - (nanCount as real) / (size as real);
      var oor := if outOfRange.Some? then Some((outOfRange.value as real) / (size as real) * 100.0) else None;
      var gaps := if Scans(hasTime, maxGap) then Some(Gaps(timeNan, maxGap.value)) else None;
      var longest := if gaps.Some? then Some(MaxGapLength(gaps.value)) else None;
      var pass := coverage >= minCoverage &&
                  (if oor.Some? then oor.value else 0.0) < 5.0 &&
                  (maxGap.None? || maxGap.value == 0 || (if longest.Some? then longest.value else 0) <= maxGap.value);
      Some(Quality(coverage, oor, gaps, longest, pass))
  }

  /** With the gap scan on and a positive `max_gap`, the gap part of the
      verdict holds exactly when no maximal run of missing values closed
      before the end is longer than `max_gap`. */
  lemma QualityGapRule(size: nat, nanCount: nat, outOfRange: Option<nat>, timeNan: seq<bool>, maxGap: nat,
                       minCoverage: real)
    requires size > 0 && maxGap > 0
    ensures var q := QualityOf(size, nanCount, outOfRange, true, timeNan, Some(maxGap), minCoverage).value;
            q.pass <==> q.coverage >= minCoverage && (if q.outOfRangePercent.Some? then q.outOfRangePercent.value else 0.0) < 5.0 &&
                        forall s: nat, e: nat :: IsRun(timeNan, s, e) && e + 1 < |timeNan| ==> e - s + 1 <= maxGap
  {
    var gaps := Gaps(timeNan, maxGap);
    LongGapsMembers(Runs(timeNan), |timeNan|, maxGap);
    if gaps != [] {
      var k :| 0 <= k < |gaps| && gaps[k].length == MaxGapLength(gaps);
      GapsExactly(timeNan, maxGap, gaps[k]);
    }
    forall s: nat, e: nat | IsRun(timeNan, s, e) && e + 1 < |timeNan| && e - s + 1 > maxGap
      ensures gaps != []
    {
      GapsExactly(timeNan, maxGap, Gap(s, e + 1, e - s + 1));
    }
  }

  /** `quality_check`: counts and the NaN mask over time are inputs. */
  method QualityCheck(size: nat, nanCount: nat, outOfRange: Option<nat>, hasTime: bool, timeNan: seq<bool>,
                      maxGap: Option<int>, minCoverage: real)
    returns (r: Option<Quality>)
    ensures r == QualityOf(size, nanCount, outOfRange, hasTime, timeNan, maxGap, minCoverage)
  {
    if size == 0 {
      return None;
    }
    var coverage := 1.0 - (nanCount as real) / (size as real);
    var oor: Option<real> := None;
    if outOfRange.Some? {
      oor := Some((outOfRange.value as real) / (size as real) * 100.0);
    }
    var gaps: Option<seq<Gap>> := None;
    var longest: Option<nat> := None;
    if hasTime && maxGap.Some? && maxGap.value != 0 {
      var found := GapScan(timeNan, maxGap.value);
      gaps := Some(found);
      longest := Some(MaxGapLength(found));
    }
    var pass := coverage >= minCoverage &&
                (if oor.Some? then oor.value else 0.0) < 5.0 &&
                (maxGap.None? || maxGap.value == 0 || (if longest.Some? then longest.value else 0) <= maxGap.value);
    r := Some(Quality(coverage, oor, gaps, longest, pass));
  }
}
