/** Time under a moving anchor: ticks become wall-clock nanoseconds (collector/src/state.rs). */
module CollectorTime {
  import opened Words
  import opened CollectorModel
  import opened CollectorCaps

  // ---- The anchor

  /** The first tick the anchor settles on after some ticks. */
  function Settled(ts: seq<nat>): (first: nat) {
    if ts == [] then 0 else Advance(Settled(ts[..|ts| - 1]), ts[|ts| - 1])
  }

  function Earliest(ts: seq<nat>): (t: nat)
    requires ts != []
  {
    var t := ts[|ts| - 1];
    if |ts| == 1 then t else Min(t, Earliest(ts[..|ts| - 1]))
  }

  lemma {:induction false} EarliestIsLeast(ts: seq<nat>)
    requires ts != []
    ensures Earliest(ts) in ts && forall t | t in ts :: Earliest(ts) <= t
  {
    if |ts| > 1 {
      EarliestIsLeast(ts[..|ts| - 1]);
      assert ts == ts[..|ts| - 1] + [ts[|ts| - 1]];
    }
  }

  /** Ticks without a zero settle on the earliest of them. */
  lemma {:induction false} PositiveSettles(ts: seq<nat>)
    requires ts != [] && 0 !in ts
    ensures Settled(ts) == Earliest(ts) > 0
  {
    var rest := ts[..|ts| - 1];
    assert ts == rest + [ts[|ts| - 1]];
    if rest != [] {
      PositiveSettles(rest);
    }
  }

  /** The anchor is the earliest tick of the session just when no tick is zero or the last is: a
      zero reads as no tick at all, and the next tick starts over from it. */
  lemma SettlesOnEarliestIff(ts: seq<nat>)
    requires ts != []
    ensures Settled(ts) == Earliest(ts) <==> 0 !in ts || ts[|ts| - 1] == 0
  {
    EarliestIsLeast(ts);
    if 0 !in ts {
      PositiveSettles(ts);
    }
  }

  /** The ticks after the last zero. */
  function AfterZero(ts: seq<nat>): (r: seq<nat>) {
    if ts == [] || ts[|ts| - 1] == 0 then [] else AfterZero(ts[..|ts| - 1]) + [ts[|ts| - 1]]
  }

  /** `r` ends `ts` without a zero, and a zero comes before it if anything does. */
  ghost predicate LastRun(ts: seq<nat>, r: seq<nat>) {
    && 0 !in r && |r| <= |ts| && ts[|ts| - |r|..] == r
    && (|r| < |ts| ==> ts[|ts| - |r| - 1] == 0)
  }

  lemma LastRunNext(ts: seq<nat>, n: nat, r: seq<nat>)
    requires |ts| == n + 1 && ts[n] != 0 && LastRun(ts[..n], r)
    ensures LastRun(ts, r + [ts[n]])
  {
    assert ts == ts[..n] + [ts[n]];
    assert ts[n - |r|..] == ts[..n][n - |r|..] + [ts[n]] == r + [ts[n]];
  }

  lemma {:induction false} AfterZeroIsLastRun(ts: seq<nat>)
    ensures LastRun(ts, AfterZero(ts))
  {
    if ts == [] || ts[|ts| - 1] == 0 {
      assert ts[|ts|..] == [];
    } else {
      var n := |ts| - 1;
      AfterZeroIsLastRun(ts[..n]);
      LastRunNext(ts, n, AfterZero(ts[..n]));
    }
  }

  /** The earliest tick since the last zero, and 0 if there is none. */
  function Origin(ts: seq<nat>): (first: nat) {
    if AfterZero(ts) == [] then 0 else Earliest(AfterZero(ts))
  }

  lemma EarliestSnoc(r: seq<nat>, t: nat)
    ensures Earliest(r + [t]) == if r == [] then t else Min(t, Earliest(r))
  {
    assert (r + [t])[..|r|] == r;
  }

  lemma EarliestPositive(ts: seq<nat>, r: seq<nat>)
    requires r == AfterZero(ts) && r != []
    ensures Earliest(r) > 0
  {
    AfterZeroIsLastRun(ts);
    EarliestIsLeast(r);
  }

  /** One more tick moves the origin as it moves the anchor. */
  lemma OriginNext(ts: seq<nat>, n: nat, t: nat)
    requires |ts| == n + 1 && ts[n] == t
    ensures Origin(ts) == Advance(Origin(ts[..n]), t)
  {
    var r := AfterZero(ts[..n]);
    if t != 0 {
      EarliestSnoc(r, t);
      if r != [] {
        EarliestPositive(ts[..n], r);
      }
    }
  }

  /** What the anchor settles on, whatever the ticks. */
  lemma {:induction false} SettledIsOrigin(ts: seq<nat>)
    ensures Settled(ts) == Origin(ts)
  {
    if ts != [] {
      var n := |ts| - 1;
      SettledIsOrigin(ts[..n]);
      OriginNext(ts, n, ts[n]);
    }
  }

  /** The ticks that moved the anchor since the last `Hello`. */
  ghost function SessionTicks(trace: seq<Tick>, k: nat): (ts: seq<nat>)
    requires k <= |trace|
  {
    if k == 0 || trace[k - 1].frame.Hello? then []
    else if Live(trace, k - 1) && TickOf(trace[k - 1].frame).Some? then
      SessionTicks(trace, k - 1) + [TickOf(trace[k - 1].frame).value]
    else SessionTicks(trace, k - 1)
  }

  lemma {:induction false} AnchorSettles(trace: seq<Tick>, k: nat)
    requires k <= |trace|
    ensures Live(trace, k) <==> After(trace, k).clock.anchor.Some?
    ensures Live(trace, k) ==> After(trace, k).clock.anchor.value.first == Settled(SessionTicks(trace, k))
    decreases k
  {
    if k > 0 {
      AnchorSettles(trace, k - 1);
      LiveNext(trace, k - 1);
      var ts := SessionTicks(trace, k - 1);
      var t := TickOf(trace[k - 1].frame);
      if t.Some? {
        assert (ts + [t.value])[..|ts|] == ts;
      }
    }
  }

  /** In a session the anchor's tick is the earliest since the last zero, at any point of any
      stream; without a session there is none. */
  lemma AnchorIsOrigin(trace: seq<Tick>, k: nat)
    requires k <= |trace|
    ensures After(trace, k).clock.anchor.Some? <==> Live(trace, k)
    ensures Live(trace, k) ==> After(trace, k).clock.anchor.value.first == Origin(SessionTicks(trace, k))
  {
    AnchorSettles(trace, k);
    SettledIsOrigin(SessionTicks(trace, k));
  }

  /** A tick is never before the origin it has just been counted in. */
  lemma OriginAtMostLast(trace: seq<Tick>, i: nat, t: nat)
    requires i < |trace| && Live(trace, i) && TickOf(trace[i].frame) == Some(t)
    ensures Live(trace, i + 1) && Origin(SessionTicks(trace, i + 1)) <= t
  {
    LiveNext(trace, i);
    var ts := SessionTicks(trace, i);
    assert (ts + [t])[..|ts|] == ts;
    SettledIsOrigin(ts + [t]);
  }

  // ---- Conversions

  /** A later tick, or an earlier anchor, never gives an earlier time. */
  lemma WallGrows(t: nat, first: nat, t': nat, first': nat, timebase: nat, wall: nat)
    requires Max(t - first, 0) <= Max(t' - first', 0)
    ensures wall <= TicksToWall(t, first, timebase, wall) <= TicksToWall(t', first', timebase, wall)
  {
    if timebase > 0 {
      QuotientGrows(Max(t - first, 0) * NANOS, Max(t' - first', 0) * NANOS, timebase);
    }
  }

  /** One session: frame after frame from `i` on without a restart and without a zero tick. */
  ghost predicate SameSession(trace: seq<Tick>, i: nat, k: nat)
    requires k <= |trace|
  {
    forall m | i <= m < k :: !trace[m].frame.Hello? && TickOf(trace[m].frame) != Some(0)
  }

  /** `b` is a later clock of the same session, its anchor no later. */
  ghost predicate Drops(a: Clock, b: Clock) {
    OneSession(a, b) && 0 < b.anchor.value.first <= a.anchor.value.first
  }

  lemma NextDrops(trace: seq<Tick>, k: nat, a: Clock)
    requires k < |trace| && !trace[k].frame.Hello? && TickOf(trace[k].frame) != Some(0)
    requires Drops(a, After(trace, k).clock)
    ensures Drops(a, After(trace, k + 1).clock)
  {
    NextClock(trace, k);
  }

  lemma {:induction false} ClockDrops(trace: seq<Tick>, i: nat, k: nat, a: Clock)
    requires i <= k <= |trace| && SameSession(trace, i, k) && Drops(a, After(trace, i).clock)
    ensures Drops(a, After(trace, k).clock)
    decreases k - i
  {
    if i < k {
      NextDrops(trace, i, a);
      ClockDrops(trace, i + 1, k, a);
    }
  }

  /** After a frame with a positive tick the anchor is positive and no later than the tick. */
  lemma AnchorBelowTick(trace: seq<Tick>, i: nat, t: nat)
    requires i < |trace| && Live(trace, i) && TickOf(trace[i].frame) == Some(t) && t > 0
    ensures var c := After(trace, i + 1).clock; c.anchor.Some? && 0 < c.anchor.value.first <= t
  {
    AnchorSettles(trace, i);
  }

  // ---- Capability spans

  lemma {:induction false} HoldingStarts(trace: seq<Tick>, c: nat, i: nat, k: nat)
    requires i < k <= |trace| && trace[i].frame.Cap?
    ensures HoldingOf(trace, c, i, k).start == WallAt(trace, i)
    decreases k
  {
    if k > i + 1 {
      HoldingStarts(trace, c, i, k - 1);
    }
  }

  /** Ticks since the origin of the session, at the time of frame `i`. */
  ghost function TicksIn(trace: seq<Tick>, i: nat): (n: int)
    requires i < |trace| && trace[i].frame.Cap?
  {
    trace[i].frame.event.t - Origin(SessionTicks(trace, i + 1))
  }

  /** So many ticks in whole nanoseconds, for a clock that is running. */
  function Elapsed(ticks: nat, timebase: nat): (ns: nat) {
    if timebase == 0 then 0 else ticks * NANOS / timebase
  }

  /** Two clocks of one session. */
  ghost predicate OneSession(a: Clock, b: Clock) {
    a.anchor.Some? && b.anchor.Some? && a.timebase == b.timebase && a.anchor.value.wall == b.anchor.value.wall
  }

  lemma NextInSession(trace: seq<Tick>, k: nat, a: Clock)
    requires k < |trace| && !trace[k].frame.Hello? && OneSession(a, After(trace, k).clock)
    ensures OneSession(a, After(trace, k + 1).clock)
  {
    NextClock(trace, k);
  }

  lemma {:induction false} SameClock(trace: seq<Tick>, i: nat, k: nat, a: Clock)
    requires i <= k <= |trace| && OneSession(a, After(trace, i).clock)
    requires forall m | i <= m < k :: !trace[m].frame.Hello?
    ensures OneSession(a, After(trace, k).clock)
    decreases k - i
  {
    if i < k {
      NextInSession(trace, i, a);
      SameClock(trace, i + 1, k, a);
    }
  }

  lemma ToWallIsElapsed(c: Clock, t: nat, first: nat)
    requires c.anchor.Some? && c.anchor.value.first == first <= t
    ensures ToWall(c, t) == c.anchor.value.wall + Elapsed(t - first, c.timebase)
  {
  }

  /** A moment's wall clock is the session's and the time elapsed since its origin. */
  lemma WallIsElapsed(trace: seq<Tick>, i: nat, c: Clock, ticks: int)
    requires i < |trace| && Live(trace, i) && trace[i].frame.Cap?
    requires c == After(trace, i + 1).clock && ticks == TicksIn(trace, i)
    ensures ticks >= 0 && c.anchor.Some? && WallAt(trace, i) == c.anchor.value.wall + Elapsed(ticks, c.timebase)
  {
    var t := trace[i].frame.event.t;
    AnchorAt(trace, i, t, c, t - ticks);
    ToWallIsElapsed(c, t, t - ticks);
  }

  /** The clock a frame with a tick leaves. */
  lemma AnchorAt(trace: seq<Tick>, i: nat, t: nat, c: Clock, first: int)
    requires i < |trace| && Live(trace, i) && TickOf(trace[i].frame) == Some(t)
    requires c == After(trace, i + 1).clock && first == Origin(SessionTicks(trace, i + 1))
    ensures c.anchor.Some? && c.anchor.value.first == first <= t
  {
    OriginAtMostLast(trace, i, t);
    AnchorIsOrigin(trace, i + 1);
  }

  lemma RevokedWalls(trace: seq<Tick>, endNow: nat, c: nat, i: nat, k: nat)
    requires k < |trace| && Closes(trace, c, i, k) && !trace[k].frame.Hello?
    ensures var s := SpanOf(trace, endNow, c, i, k); s.holding.start == WallAt(trace, i) && s.end == WallAt(trace, k)
  {
    HoldingStarts(trace, c, i, k);
  }

  lemma ClosedClocks(trace: seq<Tick>, c: nat, i: nat, k: nat, a: Clock, b: Clock)
    requires k < |trace| && Closes(trace, c, i, k) && !trace[k].frame.Hello?
    requires a == After(trace, i + 1).clock && b == After(trace, k + 1).clock
    ensures Live(trace, i) && Live(trace, k) && a.anchor.Some? && b.anchor.Some?
    ensures a.timebase == b.timebase && a.anchor.value.wall == b.anchor.value.wall
  {
    LiveLater(trace, i, k);
    LiveLater(trace, i, i + 1);
    AnchorSettles(trace, i + 1);
    NoRestart(trace, c, i, k);
    SameClock(trace, i + 1, k + 1, a);
  }

  lemma NoRestart(trace: seq<Tick>, c: nat, i: nat, k: nat)
    requires k < |trace| && Closes(trace, c, i, k) && !trace[k].frame.Hello?
    ensures forall m | i + 1 <= m < k + 1 :: !trace[m].frame.Hello?
  {
    forall m | i + 1 <= m < k + 1
      ensures !trace[m].frame.Hello?
    {
      if m < k {
        assert !Ends(trace, m, c);
      }
    }
  }

  /** A revoked capability starts before it ends exactly when no less time had elapsed, in whole
      nanoseconds, from the origin of the session as it stood at the revocation than from the
      origin as it stood at the grant. */
  lemma RevokedInOrderIff(trace: seq<Tick>, endNow: nat, c: nat, i: nat, k: nat, s: CapSpan, timebase: nat)
    requires k < |trace| && Closes(trace, c, i, k) && !trace[k].frame.Hello?
    requires s == SpanOf(trace, endNow, c, i, k) && timebase == After(trace, i + 1).clock.timebase
    ensures TicksIn(trace, i) >= 0 && TicksIn(trace, k) >= 0
    ensures s.holding.start <= s.end <==> Elapsed(TicksIn(trace, i), timebase) <= Elapsed(TicksIn(trace, k), timebase)
  {
    var a, b := After(trace, i + 1).clock, After(trace, k + 1).clock;
    ClosedClocks(trace, c, i, k, a, b);
    WallIsElapsed(trace, i, a, TicksIn(trace, i));
    WallIsElapsed(trace, k, b, TicksIn(trace, k));
    RevokedWalls(trace, endNow, c, i, k);
  }

  lemma LiveLater(trace: seq<Tick>, i: nat, k: nat)
    requires i <= k <= |trace| && Live(trace, i)
    ensures Live(trace, k)
  {
  }

  lemma ElapsedGrows(a: nat, b: nat, timebase: nat)
    ensures a <= b ==> Elapsed(a, timebase) <= Elapsed(b, timebase)
    ensures 0 < timebase <= NANOS && a < b ==> Elapsed(a, timebase) < Elapsed(b, timebase)
  {
    if timebase > 0 {
      if a <= b {
        QuotientGrows(a * NANOS, b * NANOS, timebase);
      }
      if a < b && timebase <= NANOS {
        QuotientGrows(a * NANOS + timebase, b * NANOS, timebase);
        NextQuotient(a * NANOS, timebase);
      }
    }
  }

  lemma NextQuotient(x: nat, d: nat)
    requires d > 0
    ensures (x + d) / d >= x / d + 1
  {
    var q := x / d;
    assert (q + 1) * d == q * d + d && q * d <= x;
    QuotientAtLeast(x + d, d, q + 1);
  }

  /** On a clock no faster than a tick a nanosecond, that is exactly when no fewer ticks had
      passed since the origin. */
  lemma RevokedInOrderIffTicks(trace: seq<Tick>, endNow: nat, c: nat, i: nat, k: nat, s: CapSpan, timebase: nat)
    requires k < |trace| && Closes(trace, c, i, k) && !trace[k].frame.Hello?
    requires s == SpanOf(trace, endNow, c, i, k) && timebase == After(trace, i + 1).clock.timebase
    requires 0 < timebase <= NANOS
    ensures s.holding.start <= s.end <==> TicksIn(trace, i) <= TicksIn(trace, k)
  {
    RevokedInOrderIff(trace, endNow, c, i, k, s, timebase);
    ElapsedGrows(TicksIn(trace, i), TicksIn(trace, k), timebase);
    ElapsedGrows(TicksIn(trace, k), TicksIn(trace, i), timebase);
  }

  /** Without a zero tick from grant to revocation the origin only moves back. */
  lemma OriginMovesBack(trace: seq<Tick>, i: nat, k: nat, t: nat, first: nat, first': nat)
    requires i < k < |trace| && Live(trace, i) && TickOf(trace[i].frame) == Some(t) && SameSession(trace, i, k + 1)
    requires first == Origin(SessionTicks(trace, i + 1)) && first' == Origin(SessionTicks(trace, k + 1))
    ensures first' <= first
  {
    var a, b := After(trace, i + 1).clock, After(trace, k + 1).clock;
    OriginOf(trace, i + 1, a, first, i);
    OriginOf(trace, k + 1, b, first', i);
    DropsSince(trace, i, k, t, a, b);
  }

  lemma OriginOf(trace: seq<Tick>, k: nat, c: Clock, first: nat, i: nat)
    requires i <= k <= |trace| && Live(trace, i)
    requires c == After(trace, k).clock && first == Origin(SessionTicks(trace, k))
    ensures c.anchor.Some? && c.anchor.value.first == first
  {
    LiveLater(trace, i, k);
    AnchorIsOrigin(trace, k);
  }

  lemma DropsSince(trace: seq<Tick>, i: nat, k: nat, t: nat, a: Clock, b: Clock)
    requires i < k < |trace| && Live(trace, i) && TickOf(trace[i].frame) == Some(t) && SameSession(trace, i, k + 1)
    requires a == After(trace, i + 1).clock && b == After(trace, k + 1).clock
    ensures Drops(a, b)
  {
    AnchorBelowTick(trace, i, t);
    ClockDrops(trace, i + 1, k + 1, a);
  }

  /** So a capability revoked at a tick no earlier than its grant never ends before it starts,
      though the anchor may have dropped in between, if no tick from one to the other is zero. */
  lemma RevokedAfterGrant(trace: seq<Tick>, endNow: nat, c: nat, i: nat, k: nat, s: CapSpan)
    requires k < |trace| && Closes(trace, c, i, k) && SameSession(trace, i, k + 1)
    requires trace[i].frame.event.t <= trace[k].frame.event.t && s == SpanOf(trace, endNow, c, i, k)
    ensures s.holding.start <= s.end
  {
    assert !trace[k].frame.Hello?;
    var timebase, n, n' := After(trace, i + 1).clock.timebase, TicksIn(trace, i), TicksIn(trace, k);
    RevokedInOrderIff(trace, endNow, c, i, k, s, timebase);
    TicksGrow(trace, c, i, k, n, n');
    ElapsedGrows(n, n', timebase);
  }

  lemma TicksGrow(trace: seq<Tick>, c: nat, i: nat, k: nat, n: int, n': int)
    requires k < |trace| && Closes(trace, c, i, k) && SameSession(trace, i, k + 1) && About(trace, k, c)
    requires trace[i].frame.event.t <= trace[k].frame.event.t && n == TicksIn(trace, i) && n' == TicksIn(trace, k)
    ensures n <= n'
  {
    var t, t' := trace[i].frame.event.t, trace[k].frame.event.t;
    OriginMovesBack(trace, i, k, t, t - n, t' - n');
  }

  const GRANT := CapEvent(Granted, 1, 0, 0, Endpoint, 0, 0, 10, [])

  const REVOKE := CapEvent(Revoked, 1, 0, 0, Endpoint, 0, 0, 12, [])

  /** A tick of zero between the grant and the revocation, at a clock of one tick a nanosecond. */
  const ZERO_BETWEEN: seq<Tick> := [
    Tick(Hello(NANOS, PROTOCOL_VERSION), 0, 0), Tick(Timed(5), 0, 0), Tick(Cap(GRANT), 0, 0),
    Tick(Timed(0), 0, 0), Tick(Cap(REVOKE), 0, 0)]

  lemma ZeroBetweenClocks()
    ensures After(ZERO_BETWEEN, 3).clock == Clock(NANOS, Some(Anchor(0, 5)))
    ensures After(ZERO_BETWEEN, 5).clock == Clock(NANOS, Some(Anchor(0, 12)))
  {
    NextClock(ZERO_BETWEEN, 0);
    assert After(ZERO_BETWEEN, 1).clock == Clock(NANOS, Some(Anchor(0, 0)));
    NextClock(ZERO_BETWEEN, 1);
    assert After(ZERO_BETWEEN, 2).clock == Clock(NANOS, Some(Anchor(0, 5)));
    NextClock(ZERO_BETWEEN, 2);
    NextClock(ZERO_BETWEEN, 3);
    assert After(ZERO_BETWEEN, 4).clock == Clock(NANOS, Some(Anchor(0, 0)));
    NextClock(ZERO_BETWEEN, 4);
  }

  /** That tick restarts the anchor, and the holding ends 5 nanoseconds before it began. */
  lemma ZeroTickReverses()
    ensures Closes(ZERO_BETWEEN, 1, 2, 4) && GRANT.t <= REVOKE.t
    ensures var s := SpanOf(ZERO_BETWEEN, 0, 1, 2, 4); s.holding.start == 5 && s.end == 0
  {
    ZeroBetweenClocks();
    assert ZERO_BETWEEN[0].frame.Hello?;
    assert Live(ZERO_BETWEEN, 2);
    assert !Gives(ZERO_BETWEEN, 0, 1) && !Gives(ZERO_BETWEEN, 1, 1) && !Gives(ZERO_BETWEEN, 3, 1);
    assert Opens(ZERO_BETWEEN, 1, 2);
    HoldingStarts(ZERO_BETWEEN, 1, 2, 4);
  }

  // ---- Session spans

  /** Where the span open under id `s` began. */
  ghost function LastStart(trace: seq<Tick>, s: nat, k: nat): (i: Option<nat>)
    requires k <= |trace|
    ensures i.Some? ==> i.value < k && trace[i.value].frame.SpanStart? && Live(trace, i.value)
    ensures i.Some? ==> forall m | i.value < m < k :: !trace[m].frame.Hello?
  {
    if k == 0 || trace[k - 1].frame.Hello? then None
    else
      var f := trace[k - 1].frame;
      if Live(trace, k - 1) && f.SpanStart? && f.span == s then Some(k - 1)
      else if f.SpanEnd? && f.span == s then None
      else LastStart(trace, s, k - 1)
  }

  ghost function Begin(trace: seq<Tick>, s: nat, k: nat): (o: Option<OpenSpan>)
    requires k <= |trace|
  {
    var i := LastStart(trace, s, k);
    if i.None? then None
    else
      var f := trace[i.value].frame;
      Some(OpenSpan(f.parent, f.nameId, f.t, f.task, f.hart))
  }

  lemma {:induction false} NoSpanBeforeHello(trace: seq<Tick>, s: nat, k: nat)
    requires k <= |trace| && !Live(trace, k)
    ensures LastStart(trace, s, k) == None
    decreases k
  {
    if k > 0 {
      LiveNext(trace, k - 1);
      NoSpanBeforeHello(trace, s, k - 1);
    }
  }

  lemma OpenOn(tables: Tables, f: Frame, s: nat)
    ensures Lookup(TablesOn(tables, f).open, s) ==
            if f.Hello? || (f.SpanEnd? && f.span == s) then None
            else if f.SpanStart? && f.span == s then Some(OpenSpan(f.parent, f.nameId, f.t, f.task, f.hart))
            else Lookup(tables.open, s)
  {
  }

  lemma BeginNext(trace: seq<Tick>, s: nat, k: nat, f: Frame)
    requires k < |trace| && f == trace[k].frame
    ensures Begin(trace, s, k + 1) ==
            if f.Hello? || (f.SpanEnd? && f.span == s) then None
            else if Live(trace, k) && f.SpanStart? && f.span == s then
              Some(OpenSpan(f.parent, f.nameId, f.t, f.task, f.hart))
            else Begin(trace, s, k)
  {
  }

  lemma OpenSpansNext(trace: seq<Tick>, s: nat, k: nat)
    requires k < |trace| && Lookup(After(trace, k).tables.open, s) == Begin(trace, s, k)
    ensures Lookup(After(trace, k + 1).tables.open, s) == Begin(trace, s, k + 1)
  {
    AnchorSettles(trace, k);
    NextTables(trace, k);
    OpenOn(After(trace, k).tables, trace[k].frame, s);
    BeginNext(trace, s, k, trace[k].frame);
    if !Live(trace, k) {
      NoSpanBeforeHello(trace, s, k);
    }
  }

  /** The open spans are those started and not yet ended, each as last started. */
  lemma {:induction false} OpenSpansMatch(trace: seq<Tick>, s: nat, k: nat)
    requires k <= |trace|
    ensures Lookup(After(trace, k).tables.open, s) == Begin(trace, s, k)
    decreases k
  {
    if k > 0 {
      OpenSpansMatch(trace, s, k - 1);
      OpenSpansNext(trace, s, k - 1);
    }
  }

  lemma FloorDifference(x: nat, y: nat, h: nat)
    requires h > 0 && y <= x
    ensures 0 - h < (x / h - y / h) * h - (x - y) < h
  {
    var q, r := x / h, y / h;
    assert x == q * h + x % h && y == r * h + y % h;
    assert (q - r) * h == q * h - r * h;
  }

  /** `ns` nanoseconds are `ticks` ticks, to within one nanosecond. */
  ghost predicate WithinOne(ns: int, ticks: nat, timebase: nat) {
    0 - timebase < ns * timebase - ticks * NANOS < timebase
  }

  lemma DurationExact(t: nat, t': nat, first: nat, timebase: nat, wall: nat)
    requires timebase > 0 && first <= t <= t'
    ensures WithinOne(TicksToWall(t', first, timebase, wall) - TicksToWall(t, first, timebase, wall), t' - t, timebase)
  {
    var x, y := (t' - first) * NANOS, (t - first) * NANOS;
    FloorDifference(x, y, timebase);
    assert x - y == (t' - t) * NANOS;
  }

  /** An anchor after the start costs the duration at least a tick, and a tick is a nanosecond or
      more. */
  lemma DurationIff(t: nat, t': nat, first: nat, timebase: nat, wall: nat)
    requires timebase > 0 && t <= t' && first <= t'
    ensures var ns := TicksToWall(t', first, timebase, wall) - TicksToWall(t, first, timebase, wall);
            && (first <= t ==> WithinOne(ns, t' - t, timebase))
            && (timebase <= NANOS && WithinOne(ns, t' - t, timebase) ==> first <= t)
  {
    if first <= t {
      DurationExact(t, t', first, timebase, wall);
    } else {
      var x := (t' - first) * NANOS;
      assert x / timebase * timebase <= x;
      assert (t' - t) * NANOS - x == (first - t) * NANOS >= NANOS;
    }
  }

  /** The span a `SpanEnd` completes runs from the start last seen to the end, both on the clock
      the end leaves. */
  lemma CompletedSpan(trace: seq<Tick>, k: nat, i: nat, c: Clock)
    requires k < |trace| && trace[k].frame.SpanEnd? && LastStart(trace, trace[k].frame.span, k) == Some(i)
    requires c == After(trace, k + 1).clock
    ensures Live(trace, k) && Exports(trace, k).completed.Some?
    ensures var s := Exports(trace, k).completed.value;
            s.start == ToWall(c, trace[i].frame.t) && s.end == ToWall(c, trace[k].frame.t)
  {
    LiveLater(trace, i, k);
    AnchorSettles(trace, k);
    OpenSpansMatch(trace, trace[k].frame.span, k);
  }

  /** A completed span whose ticks are in order has its duration to within one nanosecond if the
      origin of its session is no later than its start; and only if, on a clock of at most a tick
      a nanosecond. */
  lemma SpanDurationIff(trace: seq<Tick>, k: nat, i: nat, timebase: nat, first: nat)
    requires k < |trace| && trace[k].frame.SpanEnd? && LastStart(trace, trace[k].frame.span, k) == Some(i)
    requires trace[i].frame.t <= trace[k].frame.t
    requires timebase == After(trace, k + 1).clock.timebase > 0 && first == Origin(SessionTicks(trace, k + 1))
    ensures Exports(trace, k).completed.Some?
    ensures var s, ticks := Exports(trace, k).completed.value, trace[k].frame.t - trace[i].frame.t;
            && (first <= trace[i].frame.t ==> WithinOne(s.end - s.start, ticks, timebase))
            && (timebase <= NANOS && WithinOne(s.end - s.start, ticks, timebase) ==> first <= trace[i].frame.t)
  {
    var c := After(trace, k + 1).clock;
    CompletedSpan(trace, k, i, c);
    AnchorAt(trace, k, trace[k].frame.t, c, first);
    DurationIff(trace[i].frame.t, trace[k].frame.t, first, timebase, c.anchor.value.wall);
  }

  /** So it has if no tick since the start is zero. */
  lemma SpanDuration(trace: seq<Tick>, k: nat, i: nat)
    requires k < |trace| && trace[k].frame.SpanEnd? && LastStart(trace, trace[k].frame.span, k) == Some(i)
    requires SameSession(trace, i, k + 1) && trace[i].frame.t <= trace[k].frame.t
    requires After(trace, k + 1).clock.timebase > 0
    ensures Exports(trace, k).completed.Some?
    ensures var s := Exports(trace, k).completed.value;
            WithinOne(s.end - s.start, trace[k].frame.t - trace[i].frame.t, After(trace, k + 1).clock.timebase)
  {
    var t, first, first' := trace[i].frame.t, Origin(SessionTicks(trace, i + 1)), Origin(SessionTicks(trace, k + 1));
    OriginAtMostLast(trace, i, t);
    OriginMovesBack(trace, i, k, t, first, first');
    SpanDurationIff(trace, k, i, After(trace, k + 1).clock.timebase, first');
  }

  lemma CompletesIff(trace: seq<Tick>, k: nat)
    requires k < |trace|
    ensures Exports(trace, k).completed.Some? <==>
            trace[k].frame.SpanEnd? && LastStart(trace, trace[k].frame.span, k).Some?
  {
    AnchorSettles(trace, k);
    if trace[k].frame.SpanEnd? {
      OpenSpansMatch(trace, trace[k].frame.span, k);
      if !Live(trace, k) {
        NoSpanBeforeHello(trace, trace[k].frame.span, k);
      }
    }
  }
}
