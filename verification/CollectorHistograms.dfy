/** Histogram exposition equals a count over the stream (collector/src/state.rs,
    collector/src/prom.rs). */
module CollectorHistograms {
  import opened Words
  import opened CollectorModel
  import opened CollectorCaps
  import opened CollectorTime

  // ---- One histogram

  /** The histogram of some observations, in order. */
  function HistogramOf(vs: seq<nat>, bounds: seq<nat>): (h: Histogram) {
    if vs == [] then EMPTY else Recorded(HistogramOf(vs[..|vs| - 1], bounds), vs[|vs| - 1], bounds)
  }

  function AtMost(vs: seq<nat>, bound: nat): (n: nat)
    ensures n <= |vs|
  {
    if vs == [] then 0 else AtMost(vs[..|vs| - 1], bound) + if vs[|vs| - 1] <= bound then 1 else 0
  }

  function Total(vs: seq<nat>): (n: nat) {
    if vs == [] then 0 else Total(vs[..|vs| - 1]) + vs[|vs| - 1]
  }

  /** What the exposition accumulates over the first `i` buckets; a missing bucket adds nothing. */
  function Cumulative(buckets: seq<nat>, i: nat): (n: nat) {
    if i == 0 then 0 else Cumulative(buckets, i - 1) + if i - 1 < |buckets| then buckets[i - 1] else 0
  }

  ghost predicate Ascending(bounds: seq<nat>) { forall i, j | 0 <= i < j < |bounds| :: bounds[i] < bounds[j] }

  lemma BoundsAscend()
    ensures Ascending(BOUNDS)
  {
  }

  lemma {:induction false} CumulativeUpdate(buckets: seq<nat>, b: nat, i: nat)
    requires b < |buckets| && i <= |buckets|
    ensures Cumulative(buckets[b := buckets[b] + 1], i) == Cumulative(buckets, i) + if b < i then 1 else 0
    decreases i
  {
    if i > 0 {
      CumulativeUpdate(buckets, b, i - 1);
    }
  }

  lemma {:induction false} CumulativeOfZeros(buckets: seq<nat>, i: nat)
    requires forall j | 0 <= j < |buckets| :: buckets[j] == 0
    ensures Cumulative(buckets, i) == 0
  {
    if i > 0 {
      CumulativeOfZeros(buckets, i - 1);
    }
  }

  /** A value falls to a bucket at or below `i` just when it is within bound `i`. */
  lemma BucketIffWithin(bounds: seq<nat>, v: nat, i: nat)
    requires Ascending(bounds) && i < |bounds|
    ensures BucketFrom(bounds, v, 0) <= i <==> v <= bounds[i]
  {
    var b := BucketFrom(bounds, v, 0);
    if b < i {
      assert bounds[b] < bounds[i];
    }
  }

  /** What a histogram's lines must read for the observations `vs`. */
  ghost predicate Reads(h: Histogram, vs: seq<nat>, bounds: seq<nat>) {
    && (forall i | 0 <= i < |bounds| :: Cumulative(h.buckets, i + 1) == AtMost(vs, bounds[i]))
    && Cumulative(h.buckets, |bounds|) + h.inf == h.count == |vs|
    && h.sum == Min(Total(vs), TWO_64 - 1)
    && (|h.buckets| == |bounds| || (h == EMPTY && vs == []))
  }

  /** One more observation adds one to the lines of the bounds it is within. */
  lemma LinesGrow(h: Histogram, v: nat, bounds: seq<nat>, i: nat)
    requires Ascending(bounds) && i <= |bounds| && (|h.buckets| == |bounds| || h == EMPTY)
    ensures Cumulative(Recorded(h, v, bounds).buckets, i) ==
            Cumulative(h.buckets, i) + if BucketFrom(bounds, v, 0) < i then 1 else 0
  {
    var buckets := if |h.buckets| == |bounds| then h.buckets else seq(|bounds|, _ => 0);
    if |h.buckets| != |bounds| {
      CumulativeOfZeros(buckets, i);
      CumulativeOfZeros(h.buckets, i);
    }
    var b := BucketFrom(bounds, v, 0);
    if b < |bounds| {
      CumulativeUpdate(buckets, b, i);
    }
  }

  lemma RecordedReads(h: Histogram, vs: seq<nat>, v: nat, bounds: seq<nat>)
    requires Ascending(bounds) && Reads(h, vs, bounds)
    ensures Reads(Recorded(h, v, bounds), vs + [v], bounds)
  {
    var r, more := Recorded(h, v, bounds), vs + [v];
    assert more[..|vs|] == vs;
    forall i | 0 <= i < |bounds|
      ensures Cumulative(r.buckets, i + 1) == AtMost(more, bounds[i])
    {
      LinesGrow(h, v, bounds, i + 1);
      BucketIffWithin(bounds, v, i);
    }
    LinesGrow(h, v, bounds, |bounds|);
  }

  lemma {:induction false} HistogramReads(vs: seq<nat>, bounds: seq<nat>)
    requires Ascending(bounds)
    ensures Reads(HistogramOf(vs, bounds), vs, bounds)
  {
    if vs == [] {
      forall i | 0 <= i < |bounds|
        ensures Cumulative(EMPTY.buckets, i + 1) == AtMost(vs, bounds[i])
      {
        CumulativeOfZeros(EMPTY.buckets, i + 1);
      }
      CumulativeOfZeros(EMPTY.buckets, |bounds|);
    } else {
      var n := |vs| - 1;
      HistogramReads(vs[..n], bounds);
      RecordedReads(HistogramOf(vs[..n], bounds), vs[..n], vs[n], bounds);
      assert vs[..n] + [vs[n]] == vs;
    }
  }

  // ---- The exposition

  datatype Exposition = Exposition(lines: seq<nat>, inf: nat, sum: nat, count: nat)

  /** The lines of one series: a cumulative count for each bound, and for all. */
  method Expose(h: Histogram, bounds: seq<nat>) returns (x: Exposition)
    ensures |x.lines| == |bounds| && forall i | 0 <= i < |bounds| :: x.lines[i] == Cumulative(h.buckets, i + 1)
    ensures x.inf == Cumulative(h.buckets, |bounds|) + h.inf && x.sum == h.sum && x.count == h.count
  {
    var cumulative, lines := 0, [];
    for i := 0 to |bounds|
      invariant cumulative == Cumulative(h.buckets, i) && |lines| == i
      invariant forall j | 0 <= j < i :: lines[j] == Cumulative(h.buckets, j + 1)
    {
      if i < |h.buckets| {
        cumulative := cumulative + h.buckets[i];
      }
      lines := lines + [cumulative];
    }
    x := Exposition(lines, cumulative + h.inf, h.sum, h.count);
  }

  // ---- Over a whole run

  /** The values routed to histogram `key` since the last `Hello`: those whose metric was then
      registered as one, negative values as zero. */
  ghost function Routed(trace: seq<Tick>, key: (nat, nat), k: nat): (vs: seq<nat>)
    requires k <= |trace|
  {
    if k == 0 || trace[k - 1].frame.Hello? then []
    else
      var f := trace[k - 1].frame;
      if && Live(trace, k - 1) && f.Metric? && (f.metric, f.hart) == key
         && Kind(trace, f.metric, k - 1) == Some(Histogrammed)
      then Routed(trace, key, k - 1) + [Max(f.value, 0)]
      else Routed(trace, key, k - 1)
  }

  /** The kind a metric was last registered with since the last `Hello`. */
  ghost function Kind(trace: seq<Tick>, metric: nat, k: nat): (kind: Option<MetricKind>)
    requires k <= |trace|
  {
    if k == 0 || trace[k - 1].frame.Hello? then None
    else
      var f := trace[k - 1].frame;
      if Live(trace, k - 1) && f.MetricRegister? && f.metric == metric then Some(f.metricKind)
      else Kind(trace, metric, k - 1)
  }

  lemma KindOn(tables: Tables, f: Frame, metric: nat)
    ensures Lookup(TablesOn(tables, f).kinds, metric) ==
            if f.Hello? then None
            else if f.MetricRegister? && f.metric == metric then Some(f.metricKind)
            else Lookup(tables.kinds, metric)
  {
  }

  lemma {:induction false} NothingRegistered(trace: seq<Tick>, metric: nat, key: (nat, nat), k: nat)
    requires k <= |trace| && !Live(trace, k)
    ensures Kind(trace, metric, k) == None && Routed(trace, key, k) == []
    decreases k
  {
    if k > 0 {
      LiveNext(trace, k - 1);
      NothingRegistered(trace, metric, key, k - 1);
    }
  }

  lemma KindsNext(trace: seq<Tick>, metric: nat, k: nat)
    requires k < |trace|
    ensures Lookup(After(trace, k).tables.kinds, metric) == Kind(trace, metric, k) ==>
            Lookup(After(trace, k + 1).tables.kinds, metric) == Kind(trace, metric, k + 1)
  {
    AnchorSettles(trace, k);
    NextTables(trace, k);
    KindOn(After(trace, k).tables, trace[k].frame, metric);
  }

  lemma {:induction false} KindsMatch(trace: seq<Tick>, metric: nat, k: nat)
    requires k <= |trace|
    ensures Lookup(After(trace, k).tables.kinds, metric) == Kind(trace, metric, k)
    decreases k
  {
    if k > 0 {
      KindsMatch(trace, metric, k - 1);
      KindsNext(trace, metric, k - 1);
    }
  }

  function Entry(tables: Tables, key: (nat, nat)): (h: Histogram) {
    if key in tables.histograms then tables.histograms[key] else EMPTY
  }

  lemma EntryOn(tables: Tables, f: Frame, key: (nat, nat))
    ensures Entry(TablesOn(tables, f), key) ==
            if f.Hello? then EMPTY
            else if f.Metric? && (f.metric, f.hart) == key && Lookup(tables.kinds, f.metric) == Some(Histogrammed) then
              Recorded(Entry(tables, key), Max(f.value, 0), BOUNDS)
            else Entry(tables, key)
  {
  }

  ghost predicate Matching(trace: seq<Tick>, key: (nat, nat), k: nat, bounds: seq<nat>)
    requires k <= |trace|
  {
    Entry(After(trace, k).tables, key) == HistogramOf(Routed(trace, key, k), bounds)
  }

  lemma EntryNext(trace: seq<Tick>, key: (nat, nat), k: nat, bounds: seq<nat>)
    requires k < |trace| && bounds == BOUNDS && Matching(trace, key, k, bounds)
    ensures Matching(trace, key, k + 1, bounds)
  {
    var f := trace[k].frame;
    AnchorSettles(trace, k);
    NextTables(trace, k);
    EntryOn(After(trace, k).tables, f, key);
    if f.Metric? {
      KindsMatch(trace, f.metric, k);
      var vs := Routed(trace, key, k);
      assert (vs + [Max(f.value, 0)])[..|vs|] == vs;
    }
  }

  lemma {:induction false} AlwaysMatching(trace: seq<Tick>, key: (nat, nat), k: nat, bounds: seq<nat>)
    requires k <= |trace| && bounds == BOUNDS
    ensures Matching(trace, key, k, bounds)
    decreases k
  {
    if k > 0 {
      AlwaysMatching(trace, key, k - 1, bounds);
      EntryNext(trace, key, k - 1, bounds);
    }
  }

  /** At any point of any stream each histogram is that of the values routed to it since the last
      `Hello`. */
  lemma HistogramsMatch(trace: seq<Tick>, key: (nat, nat), k: nat)
    requires k <= |trace|
    ensures Entry(After(trace, k).tables, key) == HistogramOf(Routed(trace, key, k), BOUNDS)
  {
    AlwaysMatching(trace, key, k, BOUNDS);
  }

  lemma {:induction false} AtMostGrows(vs: seq<nat>, a: nat, b: nat)
    requires a <= b
    ensures AtMost(vs, a) <= AtMost(vs, b)
  {
    if vs != [] {
      AtMostGrows(vs[..|vs| - 1], a, b);
    }
  }

  /** What is exposed is what was observed: each line the number of values within its bound, the
      lines in order, the last the count, and the sum the true one or the largest there is. */
  ghost predicate Exposes(x: Exposition, vs: seq<nat>, bounds: seq<nat>) {
    && |x.lines| == |bounds|
    && (forall i | 0 <= i < |bounds| :: x.lines[i] == AtMost(vs, bounds[i]))
    && (forall i, j | 0 <= i < j < |x.lines| :: x.lines[i] <= x.lines[j])
    && x.inf == x.count == |vs|
    && x.sum == Min(Total(vs), TWO_64 - 1)
  }

  lemma ReadsExposes(h: Histogram, vs: seq<nat>, bounds: seq<nat>, x: Exposition)
    requires Ascending(bounds) && Reads(h, vs, bounds)
    requires |x.lines| == |bounds| && forall i | 0 <= i < |bounds| :: x.lines[i] == Cumulative(h.buckets, i + 1)
    requires x.inf == Cumulative(h.buckets, |bounds|) + h.inf && x.sum == h.sum && x.count == h.count
    ensures Exposes(x, vs, bounds)
  {
    forall i, j | 0 <= i < j < |x.lines|
      ensures x.lines[i] <= x.lines[j]
    {
      AtMostGrows(vs, bounds[i], bounds[j]);
    }
  }

  // ---- Which series are exposed

  /** The name registered for an id since the last `Hello`. */
  ghost function NameOf(trace: seq<Tick>, id: nat, k: nat): (name: Option<string>)
    requires k <= |trace|
  {
    if k == 0 || trace[k - 1].frame.Hello? then None
    else
      var f := trace[k - 1].frame;
      if Live(trace, k - 1) && f.StringRegister? && f.id == id then Some(f.text) else NameOf(trace, id, k - 1)
  }

  lemma NameOn(tables: Tables, f: Frame, id: nat)
    ensures Lookup(TablesOn(tables, f).strings, id) ==
            if f.Hello? then None
            else if f.StringRegister? && f.id == id then Some(f.text)
            else Lookup(tables.strings, id)
  {
  }

  lemma NamesNext(trace: seq<Tick>, id: nat, k: nat)
    requires k < |trace| && Lookup(After(trace, k).tables.strings, id) == NameOf(trace, id, k)
    ensures Lookup(After(trace, k + 1).tables.strings, id) == NameOf(trace, id, k + 1)
  {
    AnchorSettles(trace, k);
    NextTables(trace, k);
    NameOn(After(trace, k).tables, trace[k].frame, id);
  }

  lemma {:induction false} NamesMatch(trace: seq<Tick>, id: nat, k: nat)
    requires k <= |trace|
    ensures Lookup(After(trace, k).tables.strings, id) == NameOf(trace, id, k)
    decreases k
  {
    if k > 0 {
      NamesMatch(trace, id, k - 1);
      NamesNext(trace, id, k - 1);
    }
  }

  /** A series has an entry just when something was observed in it. */
  lemma KeyOn(tables: Tables, f: Frame, key: (nat, nat))
    ensures key in TablesOn(tables, f).histograms <==>
            && !f.Hello?
            && (key in tables.histograms
                || (f.Metric? && (f.metric, f.hart) == key && Lookup(tables.kinds, f.metric) == Some(Histogrammed)))
  {
  }

  lemma KeyNext(trace: seq<Tick>, key: (nat, nat), k: nat)
    requires k < |trace| && (key in After(trace, k).tables.histograms <==> Routed(trace, key, k) != [])
    ensures key in After(trace, k + 1).tables.histograms <==> Routed(trace, key, k + 1) != []
  {
    var f := trace[k].frame;
    AnchorSettles(trace, k);
    NextTables(trace, k);
    KeyOn(After(trace, k).tables, f, key);
    if f.Metric? {
      KindsMatch(trace, f.metric, k);
    }
  }

  lemma {:induction false} KeysMatch(trace: seq<Tick>, key: (nat, nat), k: nat)
    requires k <= |trace|
    ensures key in After(trace, k).tables.histograms <==> Routed(trace, key, k) != []
    decreases k
  {
    if k > 0 {
      KeysMatch(trace, key, k - 1);
      KeyNext(trace, key, k - 1);
    }
  }

  /** The exposition of a run, for any series: nothing unless a value was observed in it and its
      name is known, and then the name and the counts of what was observed. */
  method ExposeRun(ghost trace: seq<Tick>, ghost k: nat, tables: Tables, key: (nat, nat))
    returns (name: string, x: Option<Exposition>)
    requires k <= |trace| && tables == After(trace, k).tables
    ensures x.Some? <==> Routed(trace, key, k) != [] && NameOf(trace, key.0, k).Some?
    ensures x.Some? ==>
              && NameOf(trace, key.0, k) == Some(name)
              && Exposes(
                   x.value, Routed(trace, key, k),
                   [100, 250, 500, 1_000, 2_500, 5_000, 10_000, 25_000, 100_000, 1_000_000])
  {
    name, x := "", None;
    KeysMatch(trace, key, k);
    NamesMatch(trace, key.0, k);
    if key in tables.histograms && key.0 in tables.strings {
      name := tables.strings[key.0];
      var h := tables.histograms[key];
      var exposition := Expose(h, BOUNDS);
      BoundsAscend();
      HistogramsMatch(trace, key, k);
      HistogramReads(Routed(trace, key, k), BOUNDS);
      ReadsExposes(h, Routed(trace, key, k), BOUNDS, exposition);
      x := Some(exposition);
    }
  }
}
