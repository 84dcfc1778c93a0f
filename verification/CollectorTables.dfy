/** The rest of what the observer knows, read off the stream: last values, emitters, versions, the
    warning before the first `Hello`, and which frames carry a tick (collector/src/state.rs). */
module CollectorTables {
  import opened Words
  import opened CollectorModel
  import opened CollectorCaps
  import opened CollectorTime
  import opened CollectorHistograms

  // ---- Ticks

  /** The frames that move the anchor, and the tick they move it by. */
  lemma TicksAre(f: Frame)
    ensures TickOf(f).Some? <==> f.SpanStart? || f.SpanEnd? || f.Metric? || f.Timed? || f.Cap?
    ensures f.Cap? ==> TickOf(f) == Some(f.event.t)
    ensures f.SpanStart? || f.SpanEnd? || f.Metric? || f.Timed? ==> TickOf(f) == Some(f.t)
  {
  }

  // ---- Last values

  /** The value a metric last had on a hart since the last `Hello`, while it was not a histogram. */
  ghost function LastValue(trace: seq<Tick>, key: (nat, nat), k: nat): (v: Option<int>)
    requires k <= |trace|
  {
    if k == 0 || trace[k - 1].frame.Hello? then None
    else
      var f := trace[k - 1].frame;
      if && Live(trace, k - 1) && f.Metric? && (f.metric, f.hart) == key
         && Kind(trace, f.metric, k - 1) != Some(Histogrammed)
      then Some(f.value)
      else LastValue(trace, key, k - 1)
  }

  function ValueIn(tables: Tables, key: (nat, nat)): (v: Option<int>) {
    if key in tables.values then Some(tables.values[key]) else None
  }

  lemma ValueOn(tables: Tables, f: Frame, key: (nat, nat))
    ensures ValueIn(TablesOn(tables, f), key) ==
            if f.Hello? then None
            else if f.Metric? && (f.metric, f.hart) == key && Lookup(tables.kinds, f.metric) != Some(Histogrammed) then
              Some(f.value)
            else ValueIn(tables, key)
  {
  }

  lemma ValueNext(trace: seq<Tick>, key: (nat, nat), k: nat)
    requires k < |trace|
    ensures ValueIn(After(trace, k).tables, key) == LastValue(trace, key, k) ==>
            ValueIn(After(trace, k + 1).tables, key) == LastValue(trace, key, k + 1)
  {
    var f := trace[k].frame;
    AnchorSettles(trace, k);
    NextTables(trace, k);
    ValueOn(After(trace, k).tables, f, key);
    if f.Metric? { KindsMatch(trace, f.metric, k); }
  }

  lemma {:induction false} ValuesMatch(trace: seq<Tick>, key: (nat, nat), k: nat)
    requires k <= |trace|
    ensures ValueIn(After(trace, k).tables, key) == LastValue(trace, key, k)
    decreases k
  {
    if k > 0 {
      ValuesMatch(trace, key, k - 1);
      ValueNext(trace, key, k - 1);
    }
  }

  // ---- Emitters

  /** The task that last registered a metric since the last `Hello`. */
  ghost function Emitter(trace: seq<Tick>, metric: nat, k: nat): (task: Option<nat>)
    requires k <= |trace|
  {
    if k == 0 || trace[k - 1].frame.Hello? then None
    else
      var f := trace[k - 1].frame;
      if Live(trace, k - 1) && f.MetricRegister? && f.metric == metric then Some(f.task)
      else Emitter(trace, metric, k - 1)
  }

  lemma EmitterOn(tables: Tables, f: Frame, metric: nat)
    ensures Lookup(TablesOn(tables, f).emitters, metric) ==
            if f.Hello? then None
            else if f.MetricRegister? && f.metric == metric then Some(f.task)
            else Lookup(tables.emitters, metric)
  {
  }

  lemma EmitterNext(trace: seq<Tick>, metric: nat, k: nat)
    requires k < |trace|
    ensures Lookup(After(trace, k).tables.emitters, metric) == Emitter(trace, metric, k) ==>
            Lookup(After(trace, k + 1).tables.emitters, metric) == Emitter(trace, metric, k + 1)
  {
    AnchorSettles(trace, k);
    NextTables(trace, k);
    EmitterOn(After(trace, k).tables, trace[k].frame, metric);
  }

  lemma {:induction false} EmittersMatch(trace: seq<Tick>, metric: nat, k: nat)
    requires k <= |trace|
    ensures Lookup(After(trace, k).tables.emitters, metric) == Emitter(trace, metric, k)
    decreases k
  {
    if k > 0 {
      EmittersMatch(trace, metric, k - 1);
      EmitterNext(trace, metric, k - 1);
    }
  }

  // ---- Flags

  /** The version of the last `Hello`, if any. */
  ghost function Version(trace: seq<Tick>, k: nat): (v: Option<nat>)
    requires k <= |trace|
  {
    if k == 0 then None
    else if trace[k - 1].frame.Hello? then Some(trace[k - 1].frame.version)
    else Version(trace, k - 1)
  }

  ghost predicate FlagsAre(trace: seq<Tick>, k: nat, flags: Flags)
    requires k <= |trace|
  {
    flags.version == Version(trace, k) && (flags.warnedNoHello <==> k > 0 && !Live(trace, k))
  }

  lemma NextFlags(trace: seq<Tick>, k: nat, f: Frame)
    requires k < |trace| && f == trace[k].frame
    ensures var flags, flags' := After(trace, k).flags, After(trace, k + 1).flags;
            if f.Hello? then flags'.version == Some(f.version) && !flags'.warnedNoHello
            else
              && flags'.version == flags.version
              && flags'.warnedNoHello == (flags.warnedNoHello || After(trace, k).clock.anchor.None?)
  {
  }

  /** The version is that of the session, and a stream that does not open with a `Hello` is warned
      of until the first. */
  lemma {:induction false} FlagsMatch(trace: seq<Tick>, k: nat)
    requires k <= |trace|
    ensures FlagsAre(trace, k, After(trace, k).flags)
    decreases k
  {
    if k > 0 {
      FlagsMatch(trace, k - 1);
      LiveNext(trace, k - 1);
      AnchorSettles(trace, k - 1);
      NextFlags(trace, k - 1, trace[k - 1].frame);
    }
  }
}
