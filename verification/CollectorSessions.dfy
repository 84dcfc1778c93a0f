/** What a session knows of the frames before it: nothing but the threads, and whether a version
    mismatch was warned of (collector/src/state.rs). */
module CollectorSessions {
  import opened Words
  import opened CollectorModel
  import opened CollectorCaps
  import opened CollectorTime

  // ---- Sessions

  /** What a new session starts afresh: everything but the threads, and whether a version mismatch
      was ever warned of. */
  ghost predicate SameButThreads(a: Model, b: Model) {
    && a.clock == b.clock && a.tables == b.tables && a.caps == b.caps
    && a.flags.warnedNoHello == b.flags.warnedNoHello && a.flags.version == b.flags.version
  }

  /** Two completed spans that differ at most in what the thread table said. */
  ghost predicate SameSpan(a: Option<Span>, b: Option<Span>) {
    && (a.Some? <==> b.Some?)
    && (a.Some? ==>
          a.value.(threadName := None, threadPriority := None) == b.value.(threadName := None, threadPriority := None))
  }

  /** The observer after some frames from any state. */
  function From(m: Model, ticks: seq<Tick>): (r: Model) {
    if ticks == [] then m else Step(From(m, ticks[..|ticks| - 1]), ticks[|ticks| - 1]).model
  }

  lemma StepKeepsSame(a: Model, b: Model, tick: Tick)
    requires SameButThreads(a, b)
    ensures SameButThreads(Step(a, tick).model, Step(b, tick).model)
    ensures Step(a, tick).batch.flushed == Step(b, tick).batch.flushed
    ensures Step(a, tick).batch.drained == Step(b, tick).batch.drained
    ensures SameSpan(Step(a, tick).batch.completed, Step(b, tick).batch.completed)
  {
  }

  lemma HelloForgets(a: Model, b: Model, tick: Tick)
    requires tick.frame.Hello?
    ensures SameButThreads(Step(a, tick).model, Step(b, tick).model)
  {
  }

  /** After a `Hello` the observer depends only on the frames since: whatever came before, it
      holds the same tables, clock and holdings, and the next frame exports the same. */
  lemma {:induction false} SessionsForget(a: Model, b: Model, ticks: seq<Tick>)
    requires ticks != [] && ticks[0].frame.Hello?
    ensures SameButThreads(From(a, ticks), From(b, ticks))
    decreases |ticks|
  {
    var n := |ticks| - 1;
    if n == 0 {
      assert ticks[..0] == [];
      HelloForgets(a, b, ticks[0]);
    } else {
      SessionsForget(a, b, ticks[..n]);
      StepKeepsSame(From(a, ticks[..n]), From(b, ticks[..n]), ticks[n]);
    }
  }

  lemma SessionsExportAlike(a: Model, b: Model, ticks: seq<Tick>, next: Tick)
    requires ticks != [] && ticks[0].frame.Hello?
    ensures var x, y := Step(From(a, ticks), next).batch, Step(From(b, ticks), next).batch;
            x.flushed == y.flushed && x.drained == y.drained && SameSpan(x.completed, y.completed)
  {
    SessionsForget(a, b, ticks);
    StepKeepsSame(From(a, ticks), From(b, ticks), next);
  }

  // ---- What the thread tables add

  /** Both histories say the same of a task's thread. */
  ghost predicate SameThread(a: Threads, b: Threads, task: nat) {
    Lookup(a.names, task) == Lookup(b.names, task) && Lookup(a.priorities, task) == Lookup(b.priorities, task)
  }

  /** Does a frame complete a span here? */
  predicate Completes(m: Model, f: Frame) {
    m.clock.anchor.Some? && f.SpanEnd? && f.span in m.tables.open
  }

  /** Two histories of one session export the same for a frame if and only if it completes no span,
      or they say the same of its task's thread. */
  lemma ExportsEqualIff(a: Model, b: Model, tick: Tick)
    requires SameButThreads(a, b)
    ensures Step(a, tick).batch == Step(b, tick).batch <==>
            !Completes(a, tick.frame) || SameThread(a.threads, b.threads, a.tables.open[tick.frame.span].task)
  {
    StepKeepsSame(a, b, tick);
  }

  /** What was last registered for a thread, in this session or any before it. */
  ghost function Registered(trace: seq<Tick>, id: nat, k: nat): (r: Option<(string, nat)>)
    requires k <= |trace|
  {
    if k == 0 then None
    else
      var f := trace[k - 1].frame;
      if Live(trace, k - 1) && f.ThreadRegister? && f.thread == id then Some((f.name, f.priority))
      else Registered(trace, id, k - 1)
  }

  ghost predicate ThreadIs(threads: Threads, id: nat, r: Option<(string, nat)>) {
    if r.None? then Lookup(threads.names, id) == None && Lookup(threads.priorities, id) == None
    else Lookup(threads.names, id) == Some(r.value.0) && Lookup(threads.priorities, id) == Some(r.value.1)
  }

  lemma NextThreads(trace: seq<Tick>, k: nat)
    requires k < |trace|
    ensures After(trace, k + 1).threads ==
            if Counts(After(trace, k), trace[k].frame) then ThreadsOn(After(trace, k).threads, trace[k].frame)
            else After(trace, k).threads
  {
  }

  lemma ThreadsNext(trace: seq<Tick>, id: nat, k: nat)
    requires k < |trace| && ThreadIs(After(trace, k).threads, id, Registered(trace, id, k))
    ensures ThreadIs(After(trace, k + 1).threads, id, Registered(trace, id, k + 1))
  {
    AnchorSettles(trace, k);
    NextThreads(trace, k);
  }

  /** The thread tables hold every registration of the whole stream since its first `Hello`. */
  lemma {:induction false} ThreadsMatch(trace: seq<Tick>, id: nat, k: nat)
    requires k <= |trace|
    ensures ThreadIs(After(trace, k).threads, id, Registered(trace, id, k))
    decreases k
  {
    if k > 0 {
      ThreadsMatch(trace, id, k - 1);
      ThreadsNext(trace, id, k - 1);
    }
  }

  /** A thread registered in one session, and a span of a task with its number in the next. */
  const RENAMED: seq<Tick> := [
    Tick(Hello(NANOS, PROTOCOL_VERSION), 0, 0), Tick(ThreadRegister(1, "old", 2), 0, 0),
    Tick(Hello(NANOS, PROTOCOL_VERSION), 0, 0), Tick(SpanStart(7, 0, 0, 5, 1, 0), 0, 0), Tick(SpanEnd(7, 6), 0, 0)]

  /** That span is exported under the thread of the session before. */
  lemma ThreadsOutliveSessions()
    ensures Exports(RENAMED, 4).completed.Some? && Exports(RENAMED, 4).completed.value.threadName == Some("old")
    ensures forall k | 2 <= k < |RENAMED| :: !RENAMED[k].frame.ThreadRegister?
  {
    assert RENAMED[0].frame.Hello?;
    assert Live(RENAMED, 1) && Live(RENAMED, 3) && Live(RENAMED, 4);
    assert Registered(RENAMED, 1, 2) == Some(("old", 2));
    assert Registered(RENAMED, 1, 3) == Some(("old", 2));
    assert Registered(RENAMED, 1, 4) == Some(("old", 2));
    ThreadsMatch(RENAMED, 1, 4);
    assert LastStart(RENAMED, 7, 4) == Some(3);
    CompletesIff(RENAMED, 4);
    OpenSpansMatch(RENAMED, 7, 4);
  }

  // ---- Version warnings

  /** A `Hello` of another version. */
  predicate Mismatches(f: Frame) { f.Hello? && f.version != 8 }

  /** The warning is printed: the versions differ and it has not been printed before. */
  predicate Warns(m: Model, f: Frame) { Mismatches(f) && !m.flags.warnedMismatch }

  /** Some `Hello` before frame `k` was of another version. */
  ghost predicate Mismatched(trace: seq<Tick>, k: nat)
    requires k <= |trace|
  {
    exists j :: 0 <= j < k && Mismatches(trace[j].frame)
  }

  lemma MismatchedNext(trace: seq<Tick>, k: nat)
    requires k < |trace|
    ensures Mismatched(trace, k + 1) <==> Mismatched(trace, k) || Mismatches(trace[k].frame)
  {
    if Mismatches(trace[k].frame) {
      assert Mismatched(trace, k + 1);
    }
  }

  lemma NextWarned(trace: seq<Tick>, k: nat)
    requires k < |trace|
    ensures After(trace, k + 1).flags.warnedMismatch <==>
            After(trace, k).flags.warnedMismatch || Mismatches(trace[k].frame)
  {
  }

  /** The flag is never reset: it stands once any `Hello` has been of another version. */
  lemma {:induction false} WarnedIffMismatched(trace: seq<Tick>, k: nat)
    requires k <= |trace|
    ensures After(trace, k).flags.warnedMismatch <==> Mismatched(trace, k)
    decreases k
  {
    if k > 0 {
      WarnedIffMismatched(trace, k - 1);
      MismatchedNext(trace, k - 1);
      NextWarned(trace, k - 1);
    }
  }

  /** A `Hello` of another version is warned of if and only if it is the first such of the stream. */
  lemma WarnsIffFirst(trace: seq<Tick>, k: nat)
    requires k < |trace|
    ensures Warns(After(trace, k), trace[k].frame) <==> Mismatches(trace[k].frame) && !Mismatched(trace, k)
  {
    WarnedIffMismatched(trace, k);
  }

  const TWICE: seq<Tick> := [Tick(Hello(NANOS, 7), 0, 0), Tick(Hello(NANOS, 7), 0, 0)]

  /** Two sessions of another version: only the first is warned of. */
  lemma SecondMismatchIsSilent()
    ensures Mismatches(TWICE[1].frame)
    ensures Warns(After(TWICE, 0), TWICE[0].frame) && !Warns(After(TWICE, 1), TWICE[1].frame)
  {
    WarnsIffFirst(TWICE, 0);
    WarnsIffFirst(TWICE, 1);
    assert Mismatches(TWICE[0].frame);
  }
}
