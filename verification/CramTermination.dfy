/** When the correction loop ends, and what it logs on the way (cram-gen/src/lib.rs). */
module CramTermination {
  import opened Words
  import opened CramLoop
  import opened CramText
  import opened CramProofs

  // ---- Corrections

  function PendingsOf(history: seq<Rewind>): (ps: seq<Pending>)
    ensures |ps| == |history|
    ensures forall i | 0 <= i < |ps| :: ps[i] == PendingOf(history[i])
  {
    seq(|history|, i requires 0 <= i < |history| => PendingOf(history[i]))
  }

  /** Every rewind so far but the last has its correction, and the last waits for one. */
  ghost predicate InStep(st: State, ps: seq<Pending>) {
    && Logged(st.corrections, ps)
    && |st.corrections| + |Waiting(st)| == |ps|
    && (ps != [] ==> st.pending == Some(ps[|ps| - 1]))
  }

  lemma PendingsSnoc(history: seq<Rewind>, n: nat)
    requires |history| == n + 1
    ensures PendingsOf(history) == PendingsOf(history[..n]) + [PendingOf(history[n])]
  {
  }

  lemma InStepNext(a: State, r: Rewind, b: State, ps: seq<Pending>)
    requires LogStep(a, r, b) && InStep(a, ps)
    ensures InStep(b, ps + [PendingOf(r)])
  {
    LoggedByLast(a, b.corrections, ps);
    assert (ps + [PendingOf(r)])[..|ps|] == ps;
    LoggedWaiting(b.corrections, ps + [PendingOf(r)], |ps|);
  }

  /** At the top of a turn the log is in step. */
  lemma {:induction false} ChainLogs(states: seq<State>, history: seq<Rewind>)
    requires |states| == |history| + 1 && InStep(states[0], [])
    requires forall i | 0 <= i < |history| :: LogStep(states[i], history[i], states[i + 1])
    ensures InStep(states[|history|], PendingsOf(history))
    decreases |history|
  {
    if history != [] {
      var n := |history| - 1;
      ChainLogs(states[..n + 1], history[..n]);
      assert LogStep(states[n], history[n], states[n + 1]);
      PendingsSnoc(history, n);
      InStepNext(states[n], history[n], states[n + 1], PendingsOf(history[..n]));
    }
  }

  /** Completing the waiting rewind keeps the log in step. */
  lemma LoggedByLast(st: State, cs: seq<Correction>, ps: seq<Pending>)
    requires Logged(st.corrections, ps) && |st.corrections| + |Waiting(st)| == |ps|
    requires ps != [] ==> st.pending == Some(ps[|ps| - 1])
    requires st.corrections <= cs && Logged(cs[|st.corrections|..], Waiting(st))
    ensures Logged(cs, ps)
  {
    forall i | 0 <= i < |cs|
      ensures cs[i].context == ps[i].context && cs[i].discarded == ps[i].discarded && cs[i].depth == ps[i].depth
    {
      if i < |st.corrections| {
        assert cs[i] == st.corrections[i];
      } else {
        assert cs[i] == cs[|st.corrections|..][0];
      }
    }
  }

  lemma LoggedWaiting(cs: seq<Correction>, ps: seq<Pending>, n: nat)
    requires |ps| == n + 1 && |cs| == n && Logged(cs, ps[..n])
    ensures Logged(cs, ps)
  {
  }

  lemma LastTurnLogs(o: Oracle, cfg: Config, st: State, replies: seq<Reply>, run: Run)
    requires Inv(o, cfg, st) && Loop(o, cfg, st, replies) == Trace([], Finished(run))
    ensures st.corrections <= run.corrections && Logged(run.corrections[|st.corrections|..], Waiting(st))
  {
    var step := StepOf(o, cfg, st, replies[0]);
    if step.Done? {
      CountedLogs(st, FirstRound(o, cfg.cap, st, replies[0]).chunks);
    } else {
      ExhaustedRound(o, cfg, st, replies[0], step.st, step.dropped);
      CountedLogs(st, step.dropped);
    }
  }

  /** The correction's replacement is the chunk the reply opened with. */
  predicate ReplacedBy(c: Correction, reply: Reply) {
    reply.chunks != [] && c.replacement == reply.chunks[0]
  }

  /** From the `base`th on, each correction has its replacement from a reply of its own. */
  ghost predicate Replaced(cs: seq<Correction>, base: nat, skip: nat, replies: seq<Reply>) {
    forall j | base <= j < |cs| :: ReplacedAt(cs, base, skip, replies, j)
  }

  ghost predicate ReplacedAt(cs: seq<Correction>, base: nat, skip: nat, replies: seq<Reply>, j: nat)
    requires base <= j < |cs|
  {
    j - base + skip < |replies| && ReplacedBy(cs[j], replies[j - base + skip])
  }

  /** A round that completes the waiting rewind does so with its reply's first chunk. */
  lemma CountedReplaces(o: Oracle, cap: nat, st: State, reply: Reply)
    ensures var cs := Counted(st, FirstRound(o, cap, st, reply).chunks).corrections;
            && st.corrections <= cs && |cs| <= |st.corrections| + |Waiting(st)|
            && Replaced(cs, |st.corrections|, 0, [reply])
  {
  }

  lemma ReplacedLater(cs: seq<Correction>, base: nat, replies: seq<Reply>)
    requires replies != [] && Replaced(cs, base, 0, replies[1..])
    ensures Replaced(cs, base, 1, replies)
  {
    forall j | base <= j < |cs|
      ensures ReplacedAt(cs, base, 1, replies, j)
    {
      assert ReplacedAt(cs, base, 0, replies[1..], j);
    }
  }

  /** After the first correction, the rest. */
  lemma ReplacedCons(cs: seq<Correction>, base: nat, replies: seq<Reply>)
    requires base < |cs| && replies != [] && ReplacedBy(cs[base], replies[0])
    requires Replaced(cs, base + 1, 0, replies[1..])
    ensures Replaced(cs, base, 0, replies)
  {
    forall j | base <= j < |cs|
      ensures ReplacedAt(cs, base, 0, replies, j)
    {
      if j > base {
        assert ReplacedAt(cs, base + 1, 0, replies[1..], j);
      }
    }
  }

  /** The first turn's correction, if it made one, stays the first of those it and later turns make. */
  lemma TurnReplaces(
      st: State, next: seq<Correction>, cs: seq<Correction>, replies: seq<Reply>)
    requires replies != [] && st.corrections <= next <= cs && |next| == |st.corrections| + |Waiting(st)|
    requires Replaced(next, |st.corrections|, 0, [replies[0]]) && Replaced(cs, |next|, 0, replies[1..])
    ensures Replaced(cs, |st.corrections|, 1 - |Waiting(st)|, replies)
  {
    if st.pending.Some? {
      var base := |st.corrections|;
      assert cs[base] == next[base] && ReplacedAt(next, base, 0, [replies[0]], base);
      ReplacedCons(cs, base, replies);
    } else {
      ReplacedLater(cs, |next|, replies);
    }
  }

  lemma AgainReplaces(o: Oracle, cfg: Config, st: State, reply: Reply, next: State, r: Rewind)
    requires Inv(o, cfg, st) && StepOf(o, cfg, st, reply) == Again(next, r)
    ensures Inv(o, cfg, next) && next.pending.Some? && st.corrections <= next.corrections
    ensures |next.corrections| == |st.corrections| + |Waiting(st)|
    ensures Replaced(next.corrections, |st.corrections|, 0, [reply])
  {
    TurnIsTurned(o, cfg, st, reply, next, r);
    var round := FirstRound(o, cfg.cap, st, reply).chunks;
    RewindAfterCount(st, round);
    CountedReplaces(o, cfg.cap, st, reply);
  }

  lemma LastReplaces(o: Oracle, cfg: Config, st: State, replies: seq<Reply>, run: Run)
    requires Inv(o, cfg, st) && Loop(o, cfg, st, replies) == Trace([], Finished(run))
    ensures st.corrections <= run.corrections
    ensures Replaced(run.corrections, |st.corrections|, 1 - |Waiting(st)|, replies)
  {
    LastCorrections(o, cfg, st, replies, run);
    RoundReplaces(o, cfg.cap, st, replies, run.corrections);
  }

  lemma RoundReplaces(o: Oracle, cap: nat, st: State, replies: seq<Reply>, cs: seq<Correction>)
    requires replies != [] && cs == Counted(st, FirstRound(o, cap, st, replies[0]).chunks).corrections
    ensures st.corrections <= cs && Replaced(cs, |st.corrections|, 1 - |Waiting(st)|, replies)
  {
    CountedReplaces(o, cap, st, replies[0]);
    ReplacedOnce(cs, |st.corrections|, |Waiting(st)|, replies);
  }

  lemma ReplacedOnce(cs: seq<Correction>, base: nat, waiting: nat, replies: seq<Reply>)
    requires replies != [] && waiting <= 1 && |cs| <= base + waiting && Replaced(cs, base, 0, [replies[0]])
    ensures Replaced(cs, base, 1 - waiting, replies)
  {
    if base < |cs| {
      assert ReplacedAt(cs, base, 0, [replies[0]], base);
    }
  }

  lemma LastCorrections(o: Oracle, cfg: Config, st: State, replies: seq<Reply>, run: Run)
    requires Inv(o, cfg, st) && Loop(o, cfg, st, replies) == Trace([], Finished(run))
    ensures replies != []
    ensures run.corrections == Counted(st, FirstRound(o, cfg.cap, st, replies[0]).chunks).corrections
  {
    var step := StepOf(o, cfg, st, replies[0]);
    if step.Exhausted? {
      ExhaustedRound(o, cfg, st, replies[0], step.st, step.dropped);
    }
  }

  /** The turn after the first, of a run that rewinds. */
  lemma NextTurn(o: Oracle, cfg: Config, st: State, replies: seq<Reply>, t: Trace) returns (next: State, rest: Trace)
    requires Inv(o, cfg, st) && t == Loop(o, cfg, st, replies) && t.history != []
    ensures replies != [] && Inv(o, cfg, next) && |Waiting(next)| == 1
    ensures rest == Loop(o, cfg, next, replies[1..]) && rest.outcome == t.outcome
    ensures st.corrections <= next.corrections && |next.corrections| == |st.corrections| + |Waiting(st)|
    ensures Replaced(next.corrections, |st.corrections|, 0, [replies[0]])
  {
    var step := StepOf(o, cfg, st, replies[0]);
    next := step.st;
    AgainReplaces(o, cfg, st, replies[0], next, step.rewind);
    LoopAgain(o, cfg, st, replies, next, step.rewind);
    rest := Loop(o, cfg, next, replies[1..]);
  }

  lemma {:induction false} LoopReplaces(
      o: Oracle, cfg: Config, st: State, replies: seq<Reply>, t: Trace, cs: seq<Correction>)
    requires Inv(o, cfg, st) && t == Loop(o, cfg, st, replies)
    requires t.outcome.Finished? && cs == t.outcome.run.corrections
    ensures st.corrections <= cs && Replaced(cs, |st.corrections|, 1 - |Waiting(st)|, replies)
    decreases |replies|
  {
    if t.history == [] {
      LastReplaces(o, cfg, st, replies, t.outcome.run);
    } else {
      var next, rest := NextTurn(o, cfg, st, replies, t);
      LoopReplaces(o, cfg, next, replies[1..], rest, cs);
      TurnReplaces(st, next.corrections, cs, replies);
    }
  }

  /** A correction of this rewind: the end of what it kept, what it threw away and how far it
      was to reach. */
  ghost predicate Corrects(c: Correction, r: Rewind) {
    Context(TextOf(r.kept), c.context) && c.discarded == TextOf(r.discarded) && c.depth == r.requested
  }

  /** Rewinds are corrected in order; only the last may lack its correction. */
  ghost predicate LoggedRewinds(cs: seq<Correction>, history: seq<Rewind>) {
    |cs| <= |history| <= |cs| + 1 && forall i | 0 <= i < |cs| :: Corrects(cs[i], history[i])
  }

  lemma PendingsAreRewinds(cs: seq<Correction>, history: seq<Rewind>)
    requires Logged(cs, PendingsOf(history))
    ensures LoggedRewinds(cs, history)
  {
    forall i | 0 <= i < |cs|
      ensures Corrects(cs[i], history[i])
    {
      TailIsContext(TextOf(history[i].kept));
    }
  }

  /** A finished run's corrections are its rewinds, in order, each with the chunk that the model
      sent in its place. */
  lemma EveryRewindLogged(o: Oracle, cfg: Config, replies: seq<Reply>, t: Trace)
    requires Grounded(o) && t == Loop(o, cfg, INITIAL, replies) && t.outcome.Finished?
    ensures LoggedRewinds(t.outcome.run.corrections, t.history)
    ensures Replaced(t.outcome.run.corrections, 0, 1, replies)
  {
    InitialInv(o, cfg);
    var states := LoopIsChain(o, cfg, INITIAL, replies, t);
    RunLogged(o, cfg, states, replies, t);
    PendingsAreRewinds(t.outcome.run.corrections, t.history);
    LoopReplaces(o, cfg, INITIAL, replies, t, t.outcome.run.corrections);
  }

  lemma RunLogged(o: Oracle, cfg: Config, states: seq<State>, replies: seq<Reply>, t: Trace)
    requires Chain(o, cfg, states, t.history) && states[0] == INITIAL && t.outcome.Finished?
    requires |t.history| <= |replies|
    requires Loop(o, cfg, states[|t.history|], replies[|t.history|..]) == Trace([], t.outcome)
    ensures Logged(t.outcome.run.corrections, PendingsOf(t.history))
  {
    var n := |t.history|;
    ChainGood(o, cfg, states, t.history);
    ChainLogs(states, t.history);
    ChainInv(o, cfg, states, t.history, n);
    LastTurnLogs(o, cfg, states[n], replies[n..], t.outcome.run);
    LoggedByLast(states[n], t.outcome.run.corrections, PendingsOf(t.history));
  }

  // ---- A bound on rewinds

  function Written(r: Rewind): (n: nat) { Len(TextOf(r.kept + r.discarded)) }

  /** No more than `k` bytes of a rewound response lie outside the program in it. */
  ghost predicate Overhead(o: Oracle, r: Rewind, k: nat) {
    Written(r) <= Len(o.extract(TextOf(r.kept + r.discarded))) + k
  }

  ghost predicate WithinOverhead(o: Oracle, history: seq<Rewind>, k: nat) {
    forall i | 0 <= i < |history| :: Overhead(o, history[i], k)
  }

  ghost predicate WithinLimit(history: seq<Rewind>, limit: nat) {
    forall i | 0 <= i < |history| :: Written(history[i]) <= limit
  }

  /** `a * b`, by repeated addition. */
  function Times(a: nat, b: nat): (n: nat) {
    if a == 0 then 0 else Times(a - 1, b) + b
  }

  lemma {:induction false} TimesIsProduct(a: nat, b: nat)
    ensures Times(a, b) == a * b
  {
    if a > 0 {
      TimesIsProduct(a - 1, b);
      assert a * b == (a - 1) * b + b;
    }
  }

  /** What is left to spend: the high-water mark can rise to `limit`, and between rises the
      loop can be stuck at most `budget` times. */
  function Fuel(limit: nat, budget: nat, highWater: nat, stuck: nat): (f: nat)
    requires highWater <= limit && stuck <= budget
  {
    Times(limit - highWater, budget + 1) + (budget - stuck)
  }

  lemma FuelFalls(limit: nat, budget: nat, highWater: nat, stuck: nat, highWater': nat, stuck': nat)
    requires highWater <= highWater' <= limit && stuck <= budget && stuck' <= budget
    requires if highWater' > highWater then stuck' == 0 else stuck' == stuck + 1
    ensures Fuel(limit, budget, highWater', stuck') < Fuel(limit, budget, highWater, stuck)
  {
    if highWater' > highWater {
      TimesGrows(limit - highWater' + 1, limit - highWater, budget + 1);
    }
  }

  lemma {:induction false} TimesGrows(a: nat, a': nat, b: nat)
    requires a <= a'
    ensures Times(a, b) <= Times(a', b)
    decreases a'
  {
    if a < a' {
      TimesGrows(a, a' - 1, b);
    }
  }

  /** A mark that rises, or stays while its count of stuck turns goes up. */
  ghost predicate Climb(marks: seq<nat>, stucks: seq<nat>, limit: nat, budget: nat) {
    && |marks| == |stucks| > 0
    && (forall i | 0 <= i < |marks| :: marks[i] <= limit && stucks[i] <= budget)
    && forall i | 0 < i < |marks| :: Rises(marks, stucks, i)
  }

  ghost predicate Rises(marks: seq<nat>, stucks: seq<nat>, i: nat)
    requires 0 < i < |marks| == |stucks|
  {
    marks[i - 1] <= marks[i] && stucks[i] == if marks[i] > marks[i - 1] then 0 else stucks[i - 1] + 1
  }

  lemma {:induction false} ClimbSpendsFuel(marks: seq<nat>, stucks: seq<nat>, limit: nat, budget: nat)
    requires Climb(marks, stucks, limit, budget)
    ensures |marks| - 1 <= Fuel(limit, budget, marks[0], stucks[0])
    decreases |marks|
  {
    if |marks| > 1 {
      assert Rises(marks, stucks, 1);
      FuelFalls(limit, budget, marks[0], stucks[0], marks[1], stucks[1]);
      forall i | 0 < i < |marks| - 1
        ensures Rises(marks[1..], stucks[1..], i)
      {
        assert Rises(marks, stucks, i + 1);
      }
      ClimbSpendsFuel(marks[1..], stucks[1..], limit, budget);
    }
  }

  /** A climb whose first step rises from nothing is at most `limit * (budget + 1)` long. */
  lemma ClimbBounded(marks: seq<nat>, stucks: seq<nat>, limit: nat, budget: nat, bound: nat)
    requires bound == limit * (budget + 1)
    requires Climb(marks, stucks, limit, budget)
    requires marks[0] == 0 && (|marks| > 1 ==> marks[1] > 0)
    ensures |marks| - 1 <= bound
  {
    TimesIsProduct(limit, budget + 1);
    if |marks| > 1 {
      assert Rises(marks, stucks, 1);
      forall i | 0 < i < |marks| - 1
        ensures Rises(marks[1..], stucks[1..], i)
      {
        assert Rises(marks, stucks, i + 1);
      }
      ClimbSpendsFuel(marks[1..], stucks[1..], limit, budget);
      FuelAtFirst(limit, budget, marks[1]);
    }
  }

  lemma FuelAtFirst(limit: nat, budget: nat, mark: nat)
    requires 1 <= mark <= limit
    ensures 1 + Fuel(limit, budget, mark, 0) <= Times(limit, budget + 1)
  {
    TimesGrows(limit - mark + 1, limit, budget + 1);
  }

  function MarksOf(states: seq<State>): (ms: seq<nat>)
    ensures |ms| == |states| && forall i | 0 <= i < |ms| :: ms[i] == states[i].highWater
  {
    seq(|states|, i requires 0 <= i < |states| => states[i].highWater)
  }

  function StucksOf(states: seq<State>): (ss: seq<nat>)
    ensures |ss| == |states| && forall i | 0 <= i < |ss| :: ss[i] == states[i].stuck
  {
    seq(|states|, i requires 0 <= i < |states| => states[i].stuck)
  }

  lemma {:induction false} MarksWithin(states: seq<State>, history: seq<Rewind>, limit: nat, i: nat)
    requires |states| == |history| + 1 && i < |states|
    requires forall j | 0 <= j < |history| :: MarkStep(states[j], history[j], states[j + 1])
    requires WithinLimit(history, limit) && states[0].highWater <= limit
    ensures states[i].highWater <= limit
    decreases i
  {
    if i > 0 {
      MarksWithin(states, history, limit, i - 1);
      assert MarkStep(states[i - 1], history[i - 1], states[i]) && Written(history[i - 1]) <= limit;
    }
  }

  lemma MarksClimb(states: seq<State>, history: seq<Rewind>, limit: nat, budget: nat)
    requires |states| == |history| + 1
    requires forall j | 0 <= j < |history| :: MarkStep(states[j], history[j], states[j + 1])
    requires WithinLimit(history, limit) && states[0].highWater <= limit
    requires forall j | 0 <= j < |states| :: states[j].stuck <= budget
    ensures Climb(MarksOf(states), StucksOf(states), limit, budget)
  {
    var marks, stucks := MarksOf(states), StucksOf(states);
    forall i | 0 <= i < |marks|
      ensures marks[i] <= limit && stucks[i] <= budget
    {
      MarksWithin(states, history, limit, i);
    }
    forall i | 0 < i < |marks|
      ensures Rises(marks, stucks, i)
    {
      assert MarkStep(states[i - 1], history[i - 1], states[i - 1 + 1]);
    }
  }

  lemma ChainClimbs(o: Oracle, cfg: Config, states: seq<State>, history: seq<Rewind>, limit: nat)
    requires Chain(o, cfg, states, history) && WithinLimit(history, limit) && states[0].highWater == 0
    ensures Climb(MarksOf(states), StucksOf(states), limit, cfg.budget)
  {
    forall j | 0 <= j < |history|
      ensures MarkStep(states[j], history[j], states[j + 1])
    {
      assert Turned(o, cfg, states[j], history[j], states[j + 1]);
    }
    forall j | 0 <= j < |states|
      ensures states[j].stuck <= cfg.budget
    {
      ChainInv(o, cfg, states, history, j);
    }
    MarksClimb(states, history, limit, cfg.budget);
  }

  /** The first rewind always raises the mark: a doomed text is not empty. */
  lemma FirstRewindRises(o: Oracle, cfg: Config, states: seq<State>, history: seq<Rewind>)
    requires Chain(o, cfg, states, history) && history != []
    ensures states[1].highWater > 0
  {
    assert Turned(o, cfg, states[0], history[0], states[1]);
    DoomedIsNotEmpty(o, cfg.cap, TextOf(history[0].kept + history[0].discarded));
  }

  lemma RewindsBounded(o: Oracle, cfg: Config, states: seq<State>, history: seq<Rewind>, limit: nat, bound: nat)
    requires bound == limit * (cfg.budget + 1)
    requires Chain(o, cfg, states, history) && WithinLimit(history, limit) && states[0].highWater == 0
    ensures |history| <= bound
  {
    ChainClimbs(o, cfg, states, history, limit);
    if history != [] {
      FirstRewindRises(o, cfg, states, history);
    }
    ClimbBounded(MarksOf(states), StucksOf(states), limit, cfg.budget, bound);
  }

  lemma LoopAgain(o: Oracle, cfg: Config, st: State, replies: seq<Reply>, next: State, r: Rewind)
    requires replies != [] && StepOf(o, cfg, st, replies[0]) == Again(next, r)
    ensures var rest := Loop(o, cfg, next, replies[1..]);
            Loop(o, cfg, st, replies) == Trace([r] + rest.history, rest.outcome)
  {
  }

  lemma CapLimits(o: Oracle, cfg: Config, states: seq<State>, history: seq<Rewind>, k: nat)
    requires cfg.cap > 0 && Chain(o, cfg, states, history) && WithinOverhead(o, history, k)
    ensures WithinLimit(history, cfg.cap + k)
  {
    forall i | 0 <= i < |history|
      ensures Written(history[i]) <= cfg.cap + k
    {
      assert Turned(o, cfg, states[i], history[i], states[i + 1]) && Overhead(o, history[i], k);
    }
  }

  lemma CappedChain(o: Oracle, cfg: Config, states: seq<State>, history: seq<Rewind>, k: nat, limit: nat, bound: nat)
    requires cfg.cap > 0 && Chain(o, cfg, states, history) && WithinOverhead(o, history, k)
    requires states[0].highWater == 0 && limit == cfg.cap + k && bound == limit * (cfg.budget + 1)
    ensures |history| <= bound
  {
    CapLimits(o, cfg, states, history, k);
    RewindsBounded(o, cfg, states, history, limit, bound);
  }

  lemma CappedFrom(o: Oracle, cfg: Config, st: State, replies: seq<Reply>, t: Trace, k: nat, limit: nat, bound: nat)
    requires Inv(o, cfg, st) && st.highWater == 0 && cfg.cap > 0 && t == Loop(o, cfg, st, replies)
    requires WithinOverhead(o, t.history, k)
    requires limit == cfg.cap + k && bound == limit * (cfg.budget + 1)
    ensures |t.history| <= bound
  {
    var states := LoopIsChain(o, cfg, st, replies, t);
    CappedChain(o, cfg, states, t.history, k, limit, bound);
  }

  lemma {:induction false} SuspendedSpends(o: Oracle, cfg: Config, st: State, replies: seq<Reply>, t: Trace)
    requires t == Loop(o, cfg, st, replies) && t.outcome == Suspended
    ensures |replies| <= |t.history| + 1
    decreases |replies|
  {
    if |replies| > 1 {
      var step := StepOf(o, cfg, st, replies[0]);
      if step.Again? {
        LoopAgain(o, cfg, st, replies, step.st, step.rewind);
        SuspendedSpends(o, cfg, step.st, replies[1..], Loop(o, cfg, step.st, replies[1..]));
      }
    }
  }

  /** With a cap, and at most `k` bytes of each response outside its program, the loop rewinds at
      most `(cap + k) * (budget + 1)` times and returns within two calls more, whatever the model
      answers. */
  lemma CappedLoopEnds(
      o: Oracle, cfg: Config, replies: seq<Reply>, t: Trace, k: nat, limit: nat, bound: nat)
    requires Grounded(o) && cfg.cap > 0 && t == Loop(o, cfg, INITIAL, replies)
    requires WithinOverhead(o, t.history, k)
    requires limit == cfg.cap + k && bound == limit * (cfg.budget + 1)
    ensures |t.history| <= bound
    ensures |replies| >= bound + 2 ==> t.outcome != Suspended
  {
    InitialInv(o, cfg);
    CappedFrom(o, cfg, INITIAL, replies, t, k, limit, bound);
    if t.outcome == Suspended {
      SuspendedSpends(o, cfg, INITIAL, replies, t);
    }
  }

  /** With no budget the loop never rewinds: two calls always end it. */
  lemma NoBudgetEnds(o: Oracle, cfg: Config, st: State, replies: seq<Reply>)
    requires cfg.budget == 0 && |replies| >= 2
    ensures Loop(o, cfg, st, replies).history == [] && Loop(o, cfg, st, replies).outcome != Suspended
  {
  }

  // ---- When it need not end

  const GREEDY: Reply := Reply(["a", "X"], None)

  /** Texts ending in `a` are fine, and texts ending in `X` are doomed. */
  ghost predicate JudgesEndings(o: Oracle, cap: nat) {
    forall text | text != "" ::
      && (text[|text| - 1] == 'a' ==> Judge(o, cap, text) == Fine)
      && (text[|text| - 1] == 'X' ==> Judge(o, cap, text) == Doomed)
  }

  function As(n: nat): (kept: seq<Kept>)
    ensures |kept| == n
    ensures forall i | 0 <= i < n :: kept[i] == Kept("", "a")
  {
    seq(n, _ => Kept("", "a"))
  }

  function Script(n: nat): (replies: seq<Reply>)
    ensures |replies| == n
    ensures forall i | 0 <= i < n :: replies[i] == GREEDY
  {
    seq(n, _ => GREEDY)
  }

  lemma {:induction false} AsText(n: nat)
    ensures |TextOf(As(n))| == n && Len(TextOf(As(n))) == n
    ensures n > 0 ==> TextOf(As(n))[n - 1] == 'a'
  {
    if n > 0 {
      AsText(n - 1);
      assert As(n)[..n - 1] == As(n - 1);
      assert "" + "a" == "a" && Len("a") == 1;
      LenConcat(TextOf(As(n - 1)), "a");
    }
  }

  lemma GreedyText(n: nat)
    ensures var x := As(n) + [Kept("", "X")];
            Len(TextOf(x)) == n + 1 && TextOf(x) != "" && TextOf(x)[|TextOf(x)| - 1] == 'X'
  {
    var x := As(n) + [Kept("", "X")];
    assert x[..|x| - 1] == As(n);
    AsText(n);
    assert "" + "X" == "X" && Len("X") == 1;
    LenConcat(TextOf(As(n)), "X");
  }

  lemma GreedyMarks(lost: Option<string>)
    requires lost.Some? ==> lost.value == "X"
    ensures Marked(lost, GREEDY.chunks) == [Kept("", "a"), Kept("", "X")]
  {
    assert LeadingSpace("X") == "";
  }

  /** Two chunks are streamed to the end if the first is fine and the second doomed. */
  lemma StreamTwo(o: Oracle, cap: nat, kept: seq<Kept>, x: Kept, y: Kept)
    requires Judge(o, cap, TextOf(kept + [x])) == Fine && Judge(o, cap, TextOf(kept + [x, y])) == Doomed
    ensures Stream(o, cap, kept, [x, y]) == Round([x, y], Doomed)
  {
    var marked := [x, y];
    assert marked[..1] == [x] && marked[..2] == marked;
    StreamOne(o, cap, kept, marked, 0, Fine);
    StreamOne(o, cap, kept, marked, 1, Doomed);
    StreamEnds(o, cap, kept, marked, 2, Doomed);
  }

  lemma GreedyStream(o: Oracle, cap: nat, n: nat)
    requires JudgesEndings(o, cap)
    ensures var x, y := Kept("", "a"), Kept("", "X");
            Stream(o, cap, As(n), [x, y]) == Round([x, y], Doomed)
  {
    var x, y := Kept("", "a"), Kept("", "X");
    assert As(n) + [x] == As(n + 1) && As(n) + [x, y] == As(n + 1) + [y];
    AsText(n + 1);
    GreedyText(n + 1);
    StreamTwo(o, cap, As(n), x, y);
  }

  ghost predicate Greedy(st: State, n: nat) {
    && st.kept == As(n) && st.stuck == 0 && st.highWater <= n + 1
    && (st.pending.Some? ==> st.pending.value.discarded == "X")
  }

  lemma GreedyRewind(st: State, n: nat)
    requires st.kept == As(n) && st.highWater <= n + 1
    ensures var next := Rewound(st, [Kept("", "a"), Kept("", "X")]);
            && next.kept == As(n + 1) && next.stuck == 0 && next.highWater == n + 2
            && next.pending.Some? && next.pending.value.discarded == "X"
  {
    var x, y := Kept("", "a"), Kept("", "X");
    var written := As(n) + [x, y];
    assert written == As(n + 1) + [y];
    GreedyText(n + 1);
    assert written[..n + 1] == As(n + 1) && written[n + 1..] == [y];
    assert TextOf([y]) == "X";
  }

  /** One more `a` survives each round, each round is progress, and the mark keeps rising. */
  lemma GreedyTurn(o: Oracle, cfg: Config, st: State, n: nat) returns (next: State, r: Rewind)
    requires JudgesEndings(o, cfg.cap) && cfg.budget > 0 && Greedy(st, n)
    ensures StepOf(o, cfg, st, GREEDY) == Again(next, r) && Greedy(next, n + 1)
  {
    GreedyMarks(if st.pending.Some? then Some(st.pending.value.discarded) else None);
    GreedyStream(o, cfg.cap, n);
    var round := [Kept("", "a"), Kept("", "X")];
    var now := Counted(st, round);
    GreedyRewind(now, n);
    next, r := Rewound(now, round), RewindOf(now, round);
  }

  lemma GreedyNext(o: Oracle, cfg: Config, st: State, n: nat, replies: seq<Reply>, t: Trace)
    returns (next: State, rest: Trace)
    requires JudgesEndings(o, cfg.cap) && cfg.budget > 0 && Greedy(st, n)
    requires replies != [] && replies[0] == GREEDY && t == Loop(o, cfg, st, replies)
    ensures Greedy(next, n + 1) && rest == Loop(o, cfg, next, replies[1..])
    ensures t.outcome == rest.outcome && |t.history| == |rest.history| + 1
  {
    var r;
    next, r := GreedyTurn(o, cfg, st, n);
    LoopAgain(o, cfg, st, replies, next, r);
    rest := Loop(o, cfg, next, replies[1..]);
  }

  lemma {:induction false} GreedyRuns(o: Oracle, cfg: Config, st: State, n: nat, replies: seq<Reply>, t: Trace)
    requires JudgesEndings(o, cfg.cap) && cfg.budget > 0 && Greedy(st, n)
    requires (forall i | 0 <= i < |replies| :: replies[i] == GREEDY) && t == Loop(o, cfg, st, replies)
    ensures t.outcome == Suspended && |t.history| == |replies|
    decreases |replies|
  {
    if replies != [] {
      var next, rest := GreedyNext(o, cfg, st, n, replies, t);
      GreedyRuns(o, cfg, next, n + 1, replies[1..], rest);
    }
  }

  /** A response is its program, and a program ending in `X` is dead. */
  const GROWING: Oracle := Oracle(text => text, text => text != "" && text[|text| - 1] == 'X')

  lemma GrowingJudges()
    ensures JudgesEndings(GROWING, 0)
  {
  }

  lemma GrowingOverhead(history: seq<Rewind>)
    ensures WithinOverhead(GROWING, history, 0)
  {
  }

  /** Without a cap and with any budget, some model keeps the loop rewinding through any number
      of calls, even though its responses hold nothing but program. */
  lemma UncappedLoopMayNotEnd(cfg: Config, calls: nat, t: Trace)
    requires cfg.cap == 0 && cfg.budget > 0 && t == Loop(GROWING, cfg, INITIAL, Script(calls))
    ensures Grounded(GROWING) && WithinOverhead(GROWING, t.history, 0)
    ensures t.outcome == Suspended && |t.history| == calls
  {
    GrowingJudges();
    GrowingOverhead(t.history);
    GreedyRuns(GROWING, cfg, INITIAL, 0, Script(calls), t);
  }

  /** Only the last character of a response is program, and `X` is a dead one. */
  const LAST: Oracle := Oracle(text => if text == "" then "" else [text[|text| - 1]], text => text == "X")

  lemma LastJudges(cap: nat)
    requires cap > 0
    ensures JudgesEndings(LAST, cap)
  {
    assert Len("a") == 1 && Len("X") == 1 && TrimEnd("a") == "a" && TrimEnd("X") == "X";
    forall text | text != "" && (text[|text| - 1] == 'a' || text[|text| - 1] == 'X')
      ensures LAST.extract(text) == if text[|text| - 1] == 'a' then "a" else "X"
    {
    }
  }

  /** Nor is a cap enough: with any cap and any budget, a model whose responses hold ever more
      outside their program keeps the loop rewinding through any number of calls. */
  lemma CappedLoopMayNotEnd(cfg: Config, calls: nat, t: Trace)
    requires cfg.cap > 0 && cfg.budget > 0 && t == Loop(LAST, cfg, INITIAL, Script(calls))
    ensures Grounded(LAST)
    ensures t.outcome == Suspended && |t.history| == calls
  {
    LastJudges(cfg.cap);
    GreedyRuns(LAST, cfg, INITIAL, 0, Script(calls), t);
  }
}
