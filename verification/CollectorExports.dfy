/** What is exported, in the stream's own terms: absolute times, and every field of a completed
    span and of a capability holding (collector/src/state.rs, collector/src/caps.rs). */
module CollectorExports {
  import opened Words
  import opened CollectorModel
  import opened CollectorCaps
  import opened CollectorTime
  import opened CollectorHistograms
  import opened CollectorSessions

  // ---- The clock

  /** The frames before `k` that count belong to the session of the `Hello` at `j`. */
  ghost predicate InSession(trace: seq<Tick>, j: nat, k: nat)
    requires k <= |trace|
  {
    j < k && trace[j].frame.Hello? && forall m | j < m < k :: !trace[m].frame.Hello?
  }

  /** There is a session wherever a `Hello` has come. */
  lemma {:induction false} LastHello(trace: seq<Tick>, k: nat) returns (j: nat)
    requires k <= |trace| && Live(trace, k)
    ensures InSession(trace, j, k)
    decreases k
  {
    if trace[k - 1].frame.Hello? {
      j := k - 1;
    } else {
      LiveNext(trace, k - 1);
      j := LastHello(trace, k - 1);
    }
  }

  lemma HelloSetsClock(trace: seq<Tick>, j: nat)
    requires j < |trace| && trace[j].frame.Hello?
    ensures After(trace, j + 1).clock == Clock(trace[j].frame.timebase, Some(Anchor(trace[j].now, 0)))
  {
    NextClock(trace, j);
  }

  /** At any point of a session the clock has the timebase of its `Hello`, the wall clock as it
      read then, and the earliest tick since the last zero. */
  lemma ClockIs(trace: seq<Tick>, j: nat, k: nat)
    requires k <= |trace| && InSession(trace, j, k)
    ensures After(trace, k).clock ==
            Clock(trace[j].frame.timebase, Some(Anchor(trace[j].now, Origin(SessionTicks(trace, k)))))
  {
    HelloSetsClock(trace, j);
    SameClock(trace, j + 1, k, After(trace, j + 1).clock);
    assert Live(trace, k);
    AnchorIsOrigin(trace, k);
  }

  /** `ns` is so many ticks of the clock after `wall`, in whole nanoseconds; no time at all if the
      ticks are negative or the clock stands. */
  ghost predicate TicksAfter(ns: nat, wall: nat, ticks: int, timebase: nat) {
    if timebase == 0 || ticks <= 0 then ns == wall
    else ns >= wall && (ns - wall) * timebase <= ticks * 1_000_000_000 < (ns - wall + 1) * timebase
  }

  lemma WallIsTicksAfter(c: Clock, t: nat)
    requires c.anchor.Some?
    ensures TicksAfter(ToWall(c, t), c.anchor.value.wall, t - c.anchor.value.first, c.timebase)
  {
    var ticks := t - c.anchor.value.first;
    if c.timebase > 0 {
      TicksGive(ToWall(c, t), c.anchor.value.wall, ticks, c.timebase, Max(ticks, 0) * 1_000_000_000);
    }
  }

  lemma TicksGive(ns: nat, wall: nat, ticks: int, d: nat, x: nat)
    requires d > 0 && x == Max(ticks, 0) * 1_000_000_000 && ns == wall + x / d
    ensures TicksAfter(ns, wall, ticks, d)
  {
    Quotient(x, d, x / d);
  }

  lemma Quotient(x: nat, d: nat, q: nat)
    requires d > 0 && q == x / d
    ensures q * d <= x < (q + 1) * d && (x == 0 ==> q == 0)
  {
    assert (q + 1) * d == q * d + d;
    assert x == q * d + x % d;
  }

  /** A tick in a session, on the clock as it stands after `k` frames. */
  ghost predicate TimeIn(trace: seq<Tick>, j: nat, k: nat, t: nat, ns: nat)
    requires j < k <= |trace| && trace[j].frame.Hello?
  {
    TicksAfter(ns, trace[j].now, t - Origin(SessionTicks(trace, k)), trace[j].frame.timebase)
  }

  lemma TimesAre(trace: seq<Tick>, j: nat, k: nat, t: nat)
    requires k <= |trace| && InSession(trace, j, k)
    ensures TimeIn(trace, j, k, t, ToWall(After(trace, k).clock, t))
  {
    ClockIs(trace, j, k);
    WallIsTicksAfter(After(trace, k).clock, t);
  }

  // ---- Completed spans

  /** A span's parent, name, task and hart are those of its start. */
  ghost predicate SpanFields(trace: seq<Tick>, i: nat, k: nat, s: Span)
    requires i < k < |trace| && trace[i].frame.SpanStart? && trace[k].frame.SpanEnd?
  {
    var f := trace[i].frame;
    && s.span == f.span == trace[k].frame.span
    && s.parent == f.parent && s.nameId == f.nameId && s.task == f.task && s.hart == f.hart
  }

  /** Its times are on the clock its end leaves. */
  ghost predicate SpanTimes(trace: seq<Tick>, j: nat, i: nat, k: nat, s: Span)
    requires j < i < k < |trace| && trace[j].frame.Hello? && trace[i].frame.SpanStart? && trace[k].frame.SpanEnd?
  {
    TimeIn(trace, j, k + 1, trace[i].frame.t, s.start) && TimeIn(trace, j, k + 1, trace[k].frame.t, s.end)
  }

  /** Its name and its thread are as last registered. */
  ghost predicate SpanLabels(trace: seq<Tick>, k: nat, s: Span)
    requires k < |trace|
  {
    var thread := Registered(trace, s.task, k);
    && s.name == NameOf(trace, s.nameId, k)
    && s.threadName == (if thread.Some? then Some(thread.value.0) else None)
    && s.threadPriority == if thread.Some? then Some(thread.value.1) else None
  }

  /** Everything a completed span carries. */
  ghost predicate SpanIs(trace: seq<Tick>, j: nat, i: nat, k: nat, s: Span)
    requires j < i < k < |trace| && trace[j].frame.Hello? && trace[i].frame.SpanStart? && trace[k].frame.SpanEnd?
  {
    SpanFields(trace, i, k, s) && SpanTimes(trace, j, i, k, s) && SpanLabels(trace, k, s)
  }

  lemma {:induction false} LastStartIs(trace: seq<Tick>, s: nat, k: nat, i: nat)
    requires k <= |trace| && LastStart(trace, s, k) == Some(i)
    ensures i < k && trace[i].frame.SpanStart? && trace[i].frame.span == s && Live(trace, i)
    ensures forall m | i < m < k :: !trace[m].frame.Hello?
    decreases k
  {
    if i < k - 1 {
      LastStartIs(trace, s, k - 1, i);
    }
  }

  lemma CompletedIs(trace: seq<Tick>, k: nat, i: nat, c: Clock)
    requires k < |trace| && trace[k].frame.SpanEnd? && LastStart(trace, trace[k].frame.span, k) == Some(i)
    requires c == After(trace, k + 1).clock
    ensures Exports(trace, k).completed.Some?
    ensures var s, f := Exports(trace, k).completed.value, trace[i].frame;
            && s.span == trace[k].frame.span && s.parent == f.parent && s.nameId == f.nameId
            && s.task == f.task && s.hart == f.hart
            && s.start == ToWall(c, f.t) && s.end == ToWall(c, trace[k].frame.t)
            && s.name == Lookup(After(trace, k).tables.strings, f.nameId)
            && s.threadName == Lookup(After(trace, k).threads.names, f.task)
            && s.threadPriority == Lookup(After(trace, k).threads.priorities, f.task)
  {
    LiveLater(trace, i, k);
    AnchorSettles(trace, k);
    OpenSpansMatch(trace, trace[k].frame.span, k);
  }

  /** Every completed span of every stream. */
  lemma CompletedSpanIs(trace: seq<Tick>, k: nat) returns (j: nat, i: nat)
    requires k < |trace| && Exports(trace, k).completed.Some?
    ensures trace[k].frame.SpanEnd? && InSession(trace, j, k) && j < i < k && trace[i].frame.SpanStart?
    ensures LastStart(trace, trace[k].frame.span, k) == Some(i)
    ensures SpanIs(trace, j, i, k, Exports(trace, k).completed.value)
  {
    CompletesIff(trace, k);
    i := LastStart(trace, trace[k].frame.span, k).value;
    LastStartIs(trace, trace[k].frame.span, k, i);
    j := LastHello(trace, i);
    SpanOfStart(trace, j, i, k, After(trace, k + 1).clock, Exports(trace, k).completed);
  }

  lemma SpanTimesAre(trace: seq<Tick>, j: nat, i: nat, k: nat, s: Span, c: Clock)
    requires j < i < k < |trace| && InSession(trace, j, k + 1)
    requires trace[i].frame.SpanStart? && trace[k].frame.SpanEnd? && c == After(trace, k + 1).clock
    requires s.start == ToWall(c, trace[i].frame.t) && s.end == ToWall(c, trace[k].frame.t)
    ensures SpanTimes(trace, j, i, k, s)
  {
    TimesAre(trace, j, k + 1, trace[i].frame.t);
    TimesAre(trace, j, k + 1, trace[k].frame.t);
  }

  lemma SpanLabelsAre(trace: seq<Tick>, k: nat, s: Span, m: Model)
    requires k < |trace| && m == After(trace, k) && s.name == Lookup(m.tables.strings, s.nameId)
    requires s.threadName == Lookup(m.threads.names, s.task)
    requires s.threadPriority == Lookup(m.threads.priorities, s.task)
    ensures SpanLabels(trace, k, s)
  {
    NamesMatch(trace, s.nameId, k);
    ThreadsMatch(trace, s.task, k);
  }

  lemma SpanOfStart(trace: seq<Tick>, j: nat, i: nat, k: nat, c: Clock, done: Option<Span>)
    requires j < i < k < |trace| && InSession(trace, j, k + 1) && trace[i].frame.SpanStart?
    requires trace[k].frame.SpanEnd? && trace[i].frame.span == trace[k].frame.span
    requires LastStart(trace, trace[k].frame.span, k) == Some(i)
    requires c == After(trace, k + 1).clock && done == Exports(trace, k).completed
    ensures done.Some? && SpanIs(trace, j, i, k, done.value)
  {
    CompletedIs(trace, k, i, c);
    SpanTimesAre(trace, j, i, k, done.value, c);
    SpanLabelsAre(trace, k, done.value, After(trace, k));
  }

  // ---- Capability holdings

  /** The frames that gave the capability while it was held, in order. */
  ghost predicate GivingsOf(trace: seq<Tick>, c: nat, i: nat, k: nat, gs: seq<nat>)
    requires k <= |trace|
  {
    && (forall n, m | 0 <= n < m < |gs| :: gs[n] < gs[m])
    && forall m :: m in gs <==> i <= m < k && Gives(trace, m, c)
  }

  /** What an event leaves in a holding: what was done, when, and who held it then. */
  ghost predicate MomentIs(trace: seq<Tick>, m: nat, x: Moment)
    requires m < |trace| && trace[m].frame.Cap?
  {
    var e := trace[m].frame.event;
    x.action == e.action && x.holder == e.holder && x.time == WallAt(trace, m)
  }

  ghost predicate MomentsAre(trace: seq<Tick>, gs: seq<nat>, xs: seq<Moment>) {
    && |xs| == |gs|
    && forall n | 0 <= n < |gs| :: gs[n] < |trace| && trace[gs[n]].frame.Cap? && MomentIs(trace, gs[n], xs[n])
  }

  /** A holding has its kind, rights, badge, name, parent and start from the event that began it,
      its holder from the last that gave it, and the moments of all of them. */
  ghost predicate HoldingIs(trace: seq<Tick>, i: nat, gs: seq<nat>, h: Holding)
    requires i < |trace| && trace[i].frame.Cap?
  {
    var e := trace[i].frame.event;
    && gs != [] && gs[0] == i && MomentsAre(trace, gs, h.events)
    && h.kind == e.kind && h.rights == e.rights && h.badge == e.badge && h.name == e.name && h.parent == e.parent
    && h.start == WallAt(trace, i)
    && h.holder == trace[gs[|gs| - 1]].frame.event.holder
  }

  lemma GivingsNext(trace: seq<Tick>, c: nat, i: nat, k: nat, gs: seq<nat>)
    requires i < k < |trace| && GivingsOf(trace, c, i, k, gs)
    ensures GivingsOf(trace, c, i, k + 1, if Gives(trace, k, c) then gs + [k] else gs)
  {
    var gs' := if Gives(trace, k, c) then gs + [k] else gs;
    forall n, m | 0 <= n < m < |gs'|
      ensures gs'[n] < gs'[m]
    {
      assert gs'[n] in gs;
    }
  }

  lemma HoldingNext(trace: seq<Tick>, i: nat, gs: seq<nat>, h: Holding, k: nat)
    requires i < k < |trace| && trace[i].frame.Cap? && HoldingIs(trace, i, gs, h) && trace[k].frame.Cap?
    ensures HoldingIs(trace, i, gs + [k], Continued(h, trace[k].frame.event, WallAt(trace, k)))
  {
  }

  ghost predicate KnownBy(trace: seq<Tick>, c: nat, i: nat, k: nat, gs: seq<nat>)
    requires i < k <= |trace| && trace[i].frame.Cap?
  {
    GivingsOf(trace, c, i, k, gs) && HoldingIs(trace, i, gs, HoldingOf(trace, c, i, k))
  }

  lemma KnownFirst(trace: seq<Tick>, c: nat, i: nat)
    requires i < |trace| && Gives(trace, i, c)
    ensures KnownBy(trace, c, i, i + 1, [i])
  {
  }

  lemma KnownAfter(trace: seq<Tick>, c: nat, i: nat, k: nat, gs: seq<nat>)
    requires i < k < |trace| && trace[i].frame.Cap? && KnownBy(trace, c, i, k, gs)
    ensures KnownBy(trace, c, i, k + 1, if Gives(trace, k, c) then gs + [k] else gs)
  {
    GivingsNext(trace, c, i, k, gs);
    if Gives(trace, k, c) {
      HoldingNext(trace, i, gs, HoldingOf(trace, c, i, k), k);
    }
  }

  lemma {:induction false} KnownOn(trace: seq<Tick>, c: nat, i: nat, m: nat, k: nat, gs: seq<nat>)
    returns (gs': seq<nat>)
    requires i < m <= k <= |trace| && trace[i].frame.Cap? && KnownBy(trace, c, i, m, gs)
    ensures KnownBy(trace, c, i, k, gs')
    decreases k - m
  {
    gs' := gs;
    if m < k {
      KnownAfter(trace, c, i, m, gs);
      gs' := KnownOn(trace, c, i, m + 1, k, if Gives(trace, m, c) then gs + [m] else gs);
    }
  }

  lemma HoldingOfIs(trace: seq<Tick>, c: nat, i: nat, k: nat) returns (gs: seq<nat>)
    requires i < k <= |trace| && Gives(trace, i, c)
    ensures KnownBy(trace, c, i, k, gs)
  {
    KnownFirst(trace, c, i);
    gs := KnownOn(trace, c, i, i + 1, k, [i]);
  }

  /** The span of a holding that a frame or the end of the stream ended: its own, up to the host
      clock of the restart or of the end; or marked as revoked, with the moment of the revocation
      as its last and its end. */
  ghost predicate CapSpanIs(trace: seq<Tick>, endNow: nat, c: nat, i: nat, k: nat, gs: seq<nat>, s: CapSpan)
    requires i < k <= |trace| && trace[i].frame.Cap? && (k < |trace| ==> Ends(trace, k, c))
  {
    && s.cap == c
    && if k == |trace| then HoldingIs(trace, i, gs, s.holding) && s.end == endNow && !s.revoked
       else if trace[k].frame.Hello? then HoldingIs(trace, i, gs, s.holding) && s.end == trace[k].flushNow && !s.revoked
       else
         && s.revoked && s.end == WallAt(trace, k) && s.holding.events != []
         && MomentIs(trace, k, s.holding.events[|s.holding.events| - 1])
         && HoldingIs(trace, i, gs, s.holding.(events := s.holding.events[..|s.holding.events| - 1]))
  }

  /** Every holding of every stream, wherever it ends. */
  lemma ExportedHoldingIs(trace: seq<Tick>, endNow: nat, c: nat, i: nat, k: nat) returns (gs: seq<nat>)
    requires k <= |trace| && Closes(trace, c, i, k)
    ensures GivingsOf(trace, c, i, k, gs) && CapSpanIs(trace, endNow, c, i, k, gs, SpanOf(trace, endNow, c, i, k))
  {
    gs := HoldingOfIs(trace, c, i, k);
    var h := HoldingOf(trace, c, i, k);
    var s := SpanOf(trace, endNow, c, i, k);
    if k < |trace| && !trace[k].frame.Hello? {
      assert s.holding.events[..|h.events|] == h.events;
      assert s.holding.(events := h.events) == h;
    }
  }

  /** And each of its moments in absolute time. */
  lemma MomentTimesAre(trace: seq<Tick>, m: nat) returns (j: nat)
    requires m < |trace| && trace[m].frame.Cap? && Live(trace, m)
    ensures InSession(trace, j, m + 1) && TimeIn(trace, j, m + 1, trace[m].frame.event.t, WallAt(trace, m))
  {
    j := LastHello(trace, m);
    TimesAre(trace, j, m + 1, trace[m].frame.event.t);
  }
}
