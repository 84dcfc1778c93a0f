/** The telemetry observer as it runs: tables, anchor and tracker updated in place
    (collector/src/state.rs, collector/src/caps.rs, collector/src/main.rs). */
module CollectorState {
  import opened Words
  import opened CollectorModel

  /** A list of a set's elements, each once, in whatever order. */
  ghost predicate Lists<T(!new)>(s: seq<T>, x: set<T>) {
    (forall i, j | 0 <= i < j < |s| :: s[i] != s[j]) && (forall e :: e in s <==> e in x)
  }

  class CapTracker {
    var open: map<nat, Holding>
    var closed: seq<CapSpan>

    ghost function Contents(): (tr: Tracker) reads this { Tracker(open, closed) }

    constructor ()
      ensures Contents() == NO_CAPS
    {
      open, closed := map[], [];
    }

    method Observe(e: CapEvent, wall: nat)
      modifies this
      ensures Contents() == Observed(old(Contents()), e, wall)
    {
      if e.kind == Reply {
        return;
      }
      var moment := Moment(e.action, wall, e.holder);
      if e.action != Revoked {
        if e.cap in open {
          var holding := open[e.cap];
          open := open[e.cap := holding.(holder := e.holder, events := holding.events + [moment])];
        } else {
          open := open[e.cap := Holding(e.parent, e.holder, e.kind, e.rights, e.badge, wall, e.name, [moment])];
        }
      } else if e.cap in open {
        var holding := open[e.cap];
        open := open - {e.cap};
        closed := closed + [CapSpan(e.cap, holding.(events := holding.events + [moment]), wall, true)];
      }
    }

    method DrainClosed() returns (spans: seq<CapSpan>)
      modifies this
      ensures spans == old(closed) && Contents() == Tracker(old(open), [])
    {
      spans, closed := closed, [];
    }

    /** Closes every holding still open, in no particular order. */
    method Flush(now: nat) returns (spans: seq<CapSpan>)
      modifies this
      ensures Lists(spans, FlushedSpans(old(open), now)) && Contents() == Tracker(map[], old(closed))
    {
      spans := [];
      ghost var all := open;
      while open != map[]
        invariant open.Keys <= all.Keys && (forall c | c in open :: open[c] == all[c])
        invariant forall i, j | 0 <= i < j < |spans| :: spans[i] != spans[j]
        invariant forall s | s in spans :: s.cap in all && s.cap !in open && s == CapSpan(s.cap, all[s.cap], now, false)
        invariant forall c | c in all && c !in open :: CapSpan(c, all[c], now, false) in spans
        invariant closed == old(closed)
        decreases |open|
      {
        var c :| c in open;
        spans := spans + [CapSpan(c, open[c], now, false)];
        open := open - {c};
      }
    }
  }

  /** `Histogram::observe`, in place on one table entry. */
  method Observe(h: Histogram, v: nat, bounds: seq<nat>) returns (r: Histogram)
    ensures r == Recorded(h, v, bounds)
  {
    var buckets := h.buckets;
    if |buckets| != |bounds| {
      buckets := seq(|bounds|, _ => 0);
    }
    var i := 0;
    while i < |bounds| && v > bounds[i]
      invariant 0 <= i <= |bounds| && BucketFrom(bounds, v, i) == BucketFrom(bounds, v, 0)
    {
      i := i + 1;
    }
    var inf := h.inf;
    if i < |bounds| {
      buckets := buckets[i := buckets[i] + 1];
    } else {
      inf := inf + 1;
    }
    r := Histogram(buckets, inf, Min(h.sum + v, TWO_64 - 1), h.count + 1);
  }

  class State {
    var timebase: nat
    var anchor: Option<Anchor>
    var strings: map<nat, string>
    var metricKinds: map<nat, MetricKind>
    var metricEmitters: map<nat, nat>
    var openSpans: map<nat, OpenSpan>
    var threadNames: map<nat, string>
    var threadPriorities: map<nat, nat>
    var metricValues: map<(nat, nat), int>
    var histograms: map<(nat, nat), Histogram>
    var warnedNoHello: bool
    var version: Option<nat>
    var warnedMismatch: bool
    var tracker: CapTracker

    ghost function Contents(): (m: Model) reads this, tracker {
      Model(
        Clock(timebase, anchor),
        Tables(strings, metricKinds, metricEmitters, openSpans, metricValues, histograms),
        Threads(threadNames, threadPriorities),
        Flags(warnedNoHello, version, warnedMismatch),
        tracker.Contents())
    }

    constructor ()
      ensures Contents() == FRESH && fresh(tracker)
    {
      timebase, anchor := 0, None;
      strings, metricKinds, metricEmitters, openSpans := map[], map[], map[], map[];
      threadNames, threadPriorities, metricValues, histograms := map[], map[], map[], map[];
      warnedNoHello, version, warnedMismatch := false, None, false;
      tracker := new CapTracker();
    }

    method ResetSession()
      modifies this
      ensures unchanged(this`timebase, this`anchor, this`threadNames, this`threadPriorities)
      ensures unchanged(this`version, this`warnedMismatch)
      ensures Tables(strings, metricKinds, metricEmitters, openSpans, metricValues, histograms) == NO_TABLES
      ensures !warnedNoHello && tracker.Contents() == NO_CAPS && fresh(tracker)
    {
      strings, metricKinds, metricEmitters, openSpans := map[], map[], map[], map[];
      metricValues, histograms := map[], map[];
      warnedNoHello := false;
      tracker := new CapTracker();
    }

    method AdvanceAnchor(t: nat)
      modifies this`anchor
      ensures Clock(timebase, anchor) == Advanced(old(Clock(timebase, anchor)), t)
    {
      if anchor.Some? && (anchor.value.first == 0 || t < anchor.value.first) {
        anchor := Some(anchor.value.(first := t));
      }
    }

    method Greet(f: Frame, now: nat)
      requires f.Hello?
      modifies this
      ensures Contents() == HandleFrame(old(Contents()), f, now).model
      ensures fresh(tracker)
    {
      ResetSession();
      timebase, version := f.timebase, Some(f.version);
      if f.version != PROTOCOL_VERSION && !warnedMismatch {
        warnedMismatch := true;
      }
      anchor := Some(Anchor(now, 0));
    }

    method EndSpan(f: Frame) returns (r: Option<Span>)
      requires f.SpanEnd?
      modifies this`openSpans
      ensures openSpans == old(openSpans) - {f.span}
      ensures f.span !in old(openSpans) ==> r == None
      ensures f.span in old(openSpans) ==> r == Some(Finished(old(Contents()), Clock(timebase, anchor), f))
    {
      if f.span !in openSpans {
        assert openSpans == openSpans - {f.span};
        return None;
      }
      var open := openSpans[f.span];
      openSpans := openSpans - {f.span};
      var clock := Clock(timebase, anchor);
      r := Some(Span(
        Lookup(strings, open.nameId), open.nameId, f.span, open.parent, ToWall(clock, open.start),
        ToWall(clock, f.t), open.task, Lookup(threadNames, open.task), Lookup(threadPriorities, open.task), open.hart));
    }

    method Measure(f: Frame)
      requires f.Metric?
      modifies this`histograms, this`metricValues
      ensures Contents().tables == Measured(old(Contents()).tables, f)
    {
      var key := (f.metric, f.hart);
      if Lookup(metricKinds, f.metric) == Some(Histogrammed) {
        var h := if key in histograms then histograms[key] else EMPTY;
        h := Observe(h, Max(f.value, 0), BOUNDS);
        histograms := histograms[key := h];
      } else {
        metricValues := metricValues[key := f.value];
      }
    }

    /** The frames that only fill a table. */
    method Register(f: Frame)
      requires !f.Hello? && !f.SpanEnd?
      modifies this`strings, this`metricKinds, this`metricEmitters, this`openSpans, this`histograms, this`metricValues
      ensures Contents().tables == TablesOn(old(Contents()).tables, f)
    {
      if f.StringRegister? {
        strings := strings[f.id := f.text];
      } else if f.MetricRegister? {
        metricKinds := metricKinds[f.metric := f.metricKind];
        metricEmitters := metricEmitters[f.metric := f.task];
      } else if f.SpanStart? {
        openSpans := openSpans[f.span := OpenSpan(f.parent, f.nameId, f.t, f.task, f.hart)];
      } else if f.Metric? {
        Measure(f);
      }
    }

    /** What a frame other than `Hello` does once the anchor has moved. */
    method Dispatch(f: Frame) returns (r: Option<Span>)
      requires !f.Hello?
      modifies this`strings, this`metricKinds, this`metricEmitters, this`openSpans, this`histograms, this`metricValues
      modifies this`threadNames, this`threadPriorities, tracker
      ensures Contents().tables == TablesOn(old(Contents()).tables, f)
      ensures Contents().threads == ThreadsOn(old(Contents()).threads, f)
      ensures tracker.Contents() == CapsOn(old(tracker.Contents()), Clock(timebase, anchor), f)
      ensures r == if f.SpanEnd? && f.span in old(openSpans) then Some(old(Finished(Contents(), Contents().clock, f)))
                   else None
    {
      r := None;
      if f.SpanEnd? {
        r := EndSpan(f);
      } else if f.ThreadRegister? {
        threadNames := threadNames[f.thread := f.name];
        threadPriorities := threadPriorities[f.thread := f.priority];
      } else if f.Cap? {
        tracker.Observe(f.event, ToWall(Clock(timebase, anchor), f.event.t));
      } else {
        Register(f);
      }
    }

    /** A frame other than `Hello` in an anchored session. */
    method HandleInSession(f: Frame, now: nat) returns (r: Option<Span>)
      requires !f.Hello? && anchor.Some?
      modifies this, tracker
      ensures Handled(Contents(), r) == HandleFrame(old(Contents()), f, now)
      ensures tracker == old(tracker)
    {
      if TickOf(f).Some? {
        AdvanceAnchor(TickOf(f).value);
      }
      r := Dispatch(f);
    }

    method Handle(f: Frame, now: nat) returns (r: Option<Span>)
      modifies this, tracker
      ensures Handled(Contents(), r) == HandleFrame(old(Contents()), f, now)
      ensures tracker == old(tracker) || fresh(tracker)
    {
      r := None;
      if anchor.None? && !f.Hello? {
        warnedNoHello := true;
      } else if f.Hello? {
        Greet(f, now);
      } else {
        r := HandleInSession(f, now);
      }
    }
  }

  // ---- The driver

  /** A batch as exported, the flushed holdings in some order. */
  datatype Exported = Exported(flushed: seq<CapSpan>, completed: Option<Span>, drained: seq<CapSpan>)

  ghost predicate Renders(x: Exported, b: Batch) {
    Lists(x.flushed, b.flushed) && x.completed == b.completed && x.drained == b.drained
  }

  method ExportFrame(state: State, tick: Tick) returns (x: Exported)
    modifies state, state.tracker
    ensures state.Contents() == Step(old(state.Contents()), tick).model
    ensures Renders(x, Step(old(state.Contents()), tick).batch)
    ensures state.tracker == old(state.tracker) || fresh(state.tracker)
  {
    var flushed: seq<CapSpan> := [];
    if tick.frame.Hello? {
      flushed := state.tracker.Flush(tick.flushNow);
    }
    var completed := state.Handle(tick.frame, tick.now);
    var drained := state.tracker.DrainClosed();
    x := Exported(flushed, completed, drained);
  }

  /** These are the exports of the first frames, a batch for each. */
  ghost predicate Rendered(trace: seq<Tick>, exports: seq<Exported>) {
    |exports| <= |trace| && forall k | 0 <= k < |exports| :: Renders(exports[k], Exports(trace, k))
  }

  lemma RenderedNext(trace: seq<Tick>, exports: seq<Exported>, x: Exported)
    requires |exports| < |trace| && Rendered(trace, exports) && Renders(x, Exports(trace, |exports|))
    ensures Rendered(trace, exports + [x])
  {
  }

  /** These are the exports of a run: a batch for each frame, and the holdings left at the end. */
  ghost predicate Ran(trace: seq<Tick>, endNow: nat, exports: seq<Exported>, last: seq<CapSpan>) {
    && |exports| == |trace|
    && Rendered(trace, exports)
    && Lists(last, FlushedSpans(After(trace, |trace|).caps.open, endNow))
  }

  /** The whole run over a stream, to the flush at its end. */
  method RunSource(trace: seq<Tick>, endNow: nat) returns (exports: seq<Exported>, last: seq<CapSpan>)
    ensures Ran(trace, endNow, exports, last)
  {
    var state := new State();
    exports := [];
    for k := 0 to |trace|
      invariant |exports| == k && fresh(state) && fresh(state.tracker)
      invariant state.Contents() == After(trace, k)
      invariant Rendered(trace, exports)
    {
      var x := ExportFrame(state, trace[k]);
      RenderedNext(trace, exports, x);
      exports := exports + [x];
    }
    last := state.tracker.Flush(endNow);
  }
}
