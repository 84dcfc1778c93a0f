/** The telemetry observer as values: what each frame does to its tables, its clock and the
    capability tracker (collector/src/state.rs, collector/src/caps.rs, collector/src/main.rs). */
module CollectorModel {
  import opened Words

  // ---- Frames

  datatype MetricKind = Counter | Gauge | Histogrammed

  datatype CapObject =
    TelemetrySink | SpanSink | Endpoint | Reply | Notification | Process | AudioSink | DisplaySink

  datatype Action = Granted | Transferred | Revoked | Minted

  datatype CapEvent = CapEvent(
    action: Action, cap: nat, parent: nat, holder: nat, kind: CapObject, rights: nat, badge: nat, t: nat, name: bytes)

  /** A telemetry frame. `Timed` stands for the frames whose only effect is their tick (context
      switches, refusals, log lines, messages, notifications, audio underruns), `Untimed` for
      those without any (events, drops, hart registrations, build information). */
  datatype Frame =
    | Hello(timebase: nat, version: nat)
    | StringRegister(id: nat, text: string)
    | MetricRegister(metric: nat, metricKind: MetricKind, task: nat)
    | SpanStart(span: nat, parent: nat, nameId: nat, t: nat, task: nat, hart: nat)
    | SpanEnd(span: nat, t: nat)
    | Metric(metric: nat, value: int, t: nat, hart: nat)
    | ThreadRegister(thread: nat, name: string, priority: nat)
    | Cap(event: CapEvent)
    | Timed(t: nat)
    | Untimed

  // ---- Time

  /** The session's wall-clock anchor; a first tick of 0 means none seen yet. */
  datatype Anchor = Anchor(wall: nat, first: nat)

  datatype Clock = Clock(timebase: nat, anchor: Option<Anchor>)

  function Advance(first: nat, t: nat): (r: nat) { if first == 0 || t < first then t else first }

  function Advanced(c: Clock, t: nat): (r: Clock) {
    if c.anchor.None? then c
    else c.(anchor := Some(c.anchor.value.(first := Advance(c.anchor.value.first, t))))
  }

  const NANOS: nat := 1_000_000_000

  function TicksToWall(t: nat, first: nat, timebase: nat, wall: nat): (ns: nat) {
    if timebase == 0 then wall else wall + Max(t - first, 0) * NANOS / timebase
  }

  function ToWall(c: Clock, t: nat): (ns: nat) {
    if c.anchor.None? then 0 else TicksToWall(t, c.anchor.value.first, c.timebase, c.anchor.value.wall)
  }

  // ---- Histograms

  const BOUNDS: seq<nat> := [100, 250, 500, 1_000, 2_500, 5_000, 10_000, 25_000, 100_000, 1_000_000]

  datatype Histogram = Histogram(buckets: seq<nat>, inf: nat, sum: nat, count: nat)

  const EMPTY: Histogram := Histogram([], 0, 0, 0)

  /** The first bound a value is within, looking from bound `i`. */
  function BucketFrom(bounds: seq<nat>, v: nat, i: nat): (r: nat)
    requires i <= |bounds|
    ensures i <= r <= |bounds|
    ensures forall j | i <= j < r :: v > bounds[j]
    ensures r < |bounds| ==> v <= bounds[r]
    decreases |bounds| - i
  {
    if i == |bounds| || v <= bounds[i] then i else BucketFrom(bounds, v, i + 1)
  }

  /** One more observation. The sum saturates at the largest 64-bit number. */
  function Recorded(h: Histogram, v: nat, bounds: seq<nat>): (r: Histogram)
    ensures |r.buckets| == |bounds|
  {
    var buckets := if |h.buckets| == |bounds| then h.buckets else seq(|bounds|, _ => 0);
    var i := BucketFrom(bounds, v, 0);
    var sum := Min(h.sum + v, TWO_64 - 1);
    if i < |bounds| then Histogram(buckets[i := buckets[i] + 1], h.inf, sum, h.count + 1)
    else Histogram(buckets, h.inf + 1, sum, h.count + 1)
  }

  // ---- Tables

  datatype OpenSpan = OpenSpan(parent: nat, nameId: nat, start: nat, task: nat, hart: nat)

  /** The tables a new session starts without. */
  datatype Tables = Tables(
    strings: map<nat, string>, kinds: map<nat, MetricKind>, emitters: map<nat, nat>, open: map<nat, OpenSpan>,
    values: map<(nat, nat), int>, histograms: map<(nat, nat), Histogram>)

  const NO_TABLES := Tables(map[], map[], map[], map[], map[], map[])

  /** What outlives a session. */
  datatype Threads = Threads(names: map<nat, string>, priorities: map<nat, nat>)

  /** A completed span; `name` is `None` when the name was never registered. */
  datatype Span = Span(
    name: Option<string>, nameId: nat, span: nat, parent: nat, start: nat, end: nat, task: nat,
    threadName: Option<string>, threadPriority: Option<nat>, hart: nat)

  function Lookup<V>(m: map<nat, V>, k: nat): (r: Option<V>) { if k in m then Some(m[k]) else None }

  // ---- Capability holdings

  datatype Moment = Moment(action: Action, time: nat, holder: nat)

  datatype Holding = Holding(
    parent: nat, holder: nat, kind: CapObject, rights: nat, badge: nat, start: nat, name: bytes, events: seq<Moment>)

  datatype CapSpan = CapSpan(cap: nat, holding: Holding, end: nat, revoked: bool)

  datatype Tracker = Tracker(open: map<nat, Holding>, closed: seq<CapSpan>)

  const NO_CAPS := Tracker(map[], [])

  function MomentOf(e: CapEvent, wall: nat): (m: Moment) { Moment(e.action, wall, e.holder) }

  /** A new holding, and one that goes on under an event. */
  function Begun(e: CapEvent, wall: nat): (h: Holding) {
    Holding(e.parent, e.holder, e.kind, e.rights, e.badge, wall, e.name, [MomentOf(e, wall)])
  }

  function Continued(h: Holding, e: CapEvent, wall: nat): (r: Holding) {
    h.(holder := e.holder, events := h.events + [MomentOf(e, wall)])
  }

  /** What a revoked holding leaves behind: the last event is the revocation. */
  function RevokedSpan(h: Holding, e: CapEvent, wall: nat): (s: CapSpan) {
    CapSpan(e.cap, h.(events := h.events + [MomentOf(e, wall)]), wall, true)
  }

  function Observed(tr: Tracker, e: CapEvent, wall: nat): (r: Tracker) {
    if e.kind == Reply then tr
    else if e.action == Revoked then
      if e.cap in tr.open then Tracker(tr.open - {e.cap}, tr.closed + [RevokedSpan(tr.open[e.cap], e, wall)]) else tr
    else
      var h := if e.cap in tr.open then Continued(tr.open[e.cap], e, wall) else Begun(e, wall);
      tr.(open := tr.open[e.cap := h])
  }

  function FlushedSpans(open: map<nat, Holding>, now: nat): (spans: set<CapSpan>) {
    set c | c in open :: CapSpan(c, open[c], now, false)
  }

  // ---- The observer

  datatype Flags = Flags(warnedNoHello: bool, version: Option<nat>, warnedMismatch: bool)

  datatype Model = Model(clock: Clock, tables: Tables, threads: Threads, flags: Flags, caps: Tracker)

  const PROTOCOL_VERSION: nat := 8

  const FRESH := Model(
    Clock(0, None), NO_TABLES, Threads(map[], map[]), Flags(false, None, false), NO_CAPS)

  datatype Handled = Handled(model: Model, span: Option<Span>)

  function Finished(m: Model, clock: Clock, f: Frame): (s: Span)
    requires f.SpanEnd? && f.span in m.tables.open
  {
    var open := m.tables.open[f.span];
    Span(
      Lookup(m.tables.strings, open.nameId), open.nameId, f.span, open.parent, ToWall(clock, open.start),
      ToWall(clock, f.t), open.task, Lookup(m.threads.names, open.task), Lookup(m.threads.priorities, open.task),
      open.hart)
  }

  /** A metric goes to the histograms when its name was registered as one, and to the last-seen
      values otherwise. */
  function Measured(tables: Tables, f: Frame): (r: Tables)
    requires f.Metric?
  {
    var key := (f.metric, f.hart);
    if Lookup(tables.kinds, f.metric) == Some(Histogrammed) then
      var h := if key in tables.histograms then tables.histograms[key] else EMPTY;
      tables.(histograms := tables.histograms[key := Recorded(h, Max(f.value, 0), BOUNDS)])
    else tables.(values := tables.values[key := f.value])
  }

  /** The tick a frame carries, if it moves the anchor. */
  function TickOf(f: Frame): (t: Option<nat>) {
    match f
    case SpanStart(_, _, _, t, _, _) => Some(t)
    case SpanEnd(_, t) => Some(t)
    case Metric(_, _, t, _) => Some(t)
    case Cap(e) => Some(e.t)
    case Timed(t) => Some(t)
    case _ => None
  }

  function ClockOn(c: Clock, f: Frame, now: nat): (r: Clock) {
    if f.Hello? then Clock(f.timebase, Some(Anchor(now, 0)))
    else if TickOf(f).Some? then Advanced(c, TickOf(f).value)
    else c
  }

  function TablesOn(tables: Tables, f: Frame): (r: Tables) {
    match f
    case Hello(_, _) => NO_TABLES
    case StringRegister(id, text) => tables.(strings := tables.strings[id := text])
    case MetricRegister(metric, kind, task) =>
      tables.(kinds := tables.kinds[metric := kind], emitters := tables.emitters[metric := task])
    case SpanStart(span, parent, nameId, t, task, hart) =>
      tables.(open := tables.open[span := OpenSpan(parent, nameId, t, task, hart)])
    case SpanEnd(span, _) => tables.(open := tables.open - {span})
    case Metric(_, _, _, _) => Measured(tables, f)
    case _ => tables
  }

  function ThreadsOn(threads: Threads, f: Frame): (r: Threads) {
    if f.ThreadRegister? then
      Threads(threads.names[f.thread := f.name], threads.priorities[f.thread := f.priority])
    else threads
  }

  function FlagsOn(flags: Flags, f: Frame): (r: Flags) {
    if f.Hello? then Flags(false, Some(f.version), flags.warnedMismatch || f.version != PROTOCOL_VERSION) else flags
  }

  function CapsOn(caps: Tracker, clock: Clock, f: Frame): (r: Tracker) {
    if f.Hello? then NO_CAPS
    else if f.Cap? then Observed(caps, f.event, ToWall(clock, f.event.t))
    else caps
  }

  /** Nothing but a `Hello` counts before the first one. */
  function HandleFrame(m: Model, f: Frame, now: nat): (r: Handled) {
    if m.clock.anchor.None? && !f.Hello? then Handled(m.(flags := m.flags.(warnedNoHello := true)), None)
    else
      var clock := ClockOn(m.clock, f, now);
      Handled(
        Model(clock, TablesOn(m.tables, f), ThreadsOn(m.threads, f), FlagsOn(m.flags, f), CapsOn(m.caps, clock, f)),
        if f.SpanEnd? && f.span in m.tables.open then Some(Finished(m, clock, f)) else None)
  }

  // ---- The driver

  /** A frame with the host clock as it reads when holdings are flushed and when it is handled. */
  datatype Tick = Tick(frame: Frame, flushNow: nat, now: nat)

  /** What one frame exports: the holdings flushed before it, the span it completed, and the
      holdings it closed. */
  datatype Batch = Batch(flushed: set<CapSpan>, completed: Option<Span>, drained: seq<CapSpan>)

  datatype Stepped = Stepped(model: Model, batch: Batch)

  function Step(m: Model, tick: Tick): (r: Stepped) {
    var flushed := if tick.frame.Hello? then FlushedSpans(m.caps.open, tick.flushNow) else {};
    var before := if tick.frame.Hello? then m.(caps := m.caps.(open := map[])) else m;
    var handled := HandleFrame(before, tick.frame, tick.now);
    Stepped(
      handled.model.(caps := handled.model.caps.(closed := [])),
      Batch(flushed, handled.span, handled.model.caps.closed))
  }

  /** The observer after the first `k` frames. */
  function After(trace: seq<Tick>, k: nat): (m: Model)
    requires k <= |trace|
  {
    if k == 0 then FRESH else Step(After(trace, k - 1), trace[k - 1]).model
  }

  /** What frame `k` exports. */
  function Exports(trace: seq<Tick>, k: nat): (b: Batch)
    requires k < |trace|
  {
    Step(After(trace, k), trace[k]).batch
  }

  /** Whether a frame counts: it is a `Hello`, or one has been seen. */
  predicate Counts(m: Model, f: Frame) { m.clock.anchor.Some? || f.Hello? }

  lemma NextTables(trace: seq<Tick>, k: nat)
    requires k < |trace|
    ensures After(trace, k + 1).tables ==
            if Counts(After(trace, k), trace[k].frame) then TablesOn(After(trace, k).tables, trace[k].frame)
            else After(trace, k).tables
  {
  }

  lemma NextClock(trace: seq<Tick>, k: nat)
    requires k < |trace|
    ensures After(trace, k + 1).clock ==
            if Counts(After(trace, k), trace[k].frame) then ClockOn(After(trace, k).clock, trace[k].frame, trace[k].now)
            else After(trace, k).clock
  {
  }
}
