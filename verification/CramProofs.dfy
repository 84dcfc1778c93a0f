/** What the correction loop guarantees against every model: what survives was never doomed,
    rewinds lose nothing but what they discard, and the loop ends (cram-gen/src/lib.rs). */
module CramProofs {
  import opened Words
  import opened CramLoop
  import opened CramText

  function Pow2(n: nat): (p: nat)
    ensures p >= 1
  {
    if n == 0 then 1 else 2 * Pow2(n - 1)
  }

  /** Two to the `n`, as far as a `usize` counts. */
  function Reach(n: nat): (d: nat)
    ensures 1 <= d < TWO_64
  {
    Min(Pow2(n), TWO_64 - 1)
  }

  lemma DoubledReach(n: nat)
    ensures Doubled(Reach(n)) == Reach(n + 1)
  {
    assert Pow2(n + 1) == 2 * Pow2(n);
  }

  // ---- What the invariant says

  /** An empty response holds no program. */
  ghost predicate Grounded(o: Oracle) { o.extract("") == "" }

  /** Every chunk-boundary prefix was judged fine. */
  ghost predicate Safe(o: Oracle, cap: nat, kept: seq<Kept>) {
    forall i | 0 < i <= |kept| :: Judge(o, cap, TextOf(kept[..i])) == Fine
  }

  /** A separator is whitespace, put before a chunk that brought none. */
  predicate Repaired(k: Kept) {
    k.sep != "" ==> (forall c | c in k.sep :: Whitespace(c)) && (k.chunk == "" || !Whitespace(k.chunk[0]))
  }

  predicate AllRepaired(kept: seq<Kept>) {
    forall k | k in kept :: Repaired(k)
  }

  function Front(kept: seq<Kept>): (f: seq<Kept>)
    requires kept != []
  {
    kept[..|kept| - 1]
  }

  /** What holds at the top of every turn. */
  ghost predicate Inv(o: Oracle, cfg: Config, st: State) {
    && Grounded(o)
    && Safe(o, cfg.cap, st.kept)
    && AllRepaired(st.kept)
    && st.stuck <= cfg.budget
    && if st.pending.None? then st.kept == [] && st.depth == 1 && st.stuck == 0 && st.highWater == 0
       else
         && st.depth == Reach(st.stuck + 1)
         && st.pending.value.depth == Reach(st.stuck)
         && st.pending.value.context == Tail(TextOf(st.kept))
         && Len(TextOf(st.kept) + st.pending.value.discarded) <= st.highWater
  }

  /** A rewind drops the doomed chunk and as many before it as its stuck count calls for. */
  ghost predicate GoodRewind(o: Oracle, cfg: Config, r: Rewind) {
    && r.discarded != []
    && Judge(o, cfg.cap, TextOf(r.kept + r.discarded)) == Doomed
    && Safe(o, cfg.cap, r.kept + Front(r.discarded))
    && r.stuck <= cfg.budget
    && r.requested == Reach(r.stuck)
    && |r.discarded| == Min(r.requested, |r.kept + r.discarded|)
  }

  // ---- One round

  /** What a round yields: its chunks are the model's, a fine round leaves everything safe, and
      a stopped one is safe up to the chunk that stopped it. */
  ghost predicate GoodRound(o: Oracle, cap: nat, kept: seq<Kept>, r: Round) {
    && AllRepaired(r.chunks)
    && if r.verdict == Fine then Safe(o, cap, kept + r.chunks)
       else
         && r.chunks != []
         && Judge(o, cap, TextOf(kept + r.chunks)) == r.verdict
         && Safe(o, cap, kept + Front(r.chunks))
  }

  lemma StreamGood(o: Oracle, cap: nat, kept: seq<Kept>, marked: seq<Kept>)
    requires Safe(o, cap, kept) && AllRepaired(marked)
    ensures GoodRound(o, cap, kept, Stream(o, cap, kept, marked))
  {
    var k := Stop(o, cap, kept, marked, 0);
    if k == 0 {
      assert kept + marked[..0] == kept;
    } else {
      StreamSafe(o, cap, kept, marked, k - 1);
      assert Front(marked[..k]) == marked[..k - 1];
      if Judge(o, cap, TextOf(kept + marked[..k])) == Fine {
        StreamSafe(o, cap, kept, marked, k);
      }
    }
  }

  lemma StreamSafe(o: Oracle, cap: nat, kept: seq<Kept>, marked: seq<Kept>, k: nat)
    requires Safe(o, cap, kept) && k <= |marked|
    requires forall i | 0 < i <= k :: Judge(o, cap, TextOf(kept + marked[..i])) == Fine
    ensures Safe(o, cap, kept + marked[..k])
  {
    var all := kept + marked[..k];
    forall i | 0 < i <= |all|
      ensures Judge(o, cap, TextOf(all[..i])) == Fine
    {
      if i <= |kept| {
        assert all[..i] == kept[..i];
      } else {
        assert all[..i] == kept + marked[..i - |kept|];
      }
    }
  }

  // ---- One turn

  lemma {:induction false} LenConcat(a: string, b: string)
    ensures Len(a + b) == Len(a) + Len(b)
  {
    if a == "" {
      assert a + b == b;
    } else {
      assert (a + b)[1..] == a[1..] + b;
      LenConcat(a[1..], b);
    }
  }

  lemma SafePrefix(o: Oracle, cap: nat, kept: seq<Kept>, more: seq<Kept>)
    requires Safe(o, cap, kept + more)
    ensures Safe(o, cap, kept)
  {
    forall i | 0 < i <= |kept|
      ensures Judge(o, cap, TextOf(kept[..i])) == Fine
    {
      assert (kept + more)[..i] == kept[..i];
    }
  }

  /** A rewind splits what was written exactly and drops at least its last chunk. */
  lemma RewindSplits(st: State, round: seq<Kept>)
    requires round != [] && 1 <= st.depth
    ensures var r := RewindOf(st, round);
            && st.kept + round == r.kept + r.discarded
            && r.discarded != []
            && |r.discarded| == Min(r.requested, |r.kept + r.discarded|)
            && st.kept + Front(round) == r.kept + Front(r.discarded)
  {
    var written, r := st.kept + round, RewindOf(st, round);
    var n := |r.kept|;
    assert written == written[..n] + written[n..];
    assert st.kept + Front(round) == Front(written);
    assert written[..n] + Front(written[n..]) == Front(written);
  }

  lemma DoomedIsNotEmpty(o: Oracle, cap: nat, text: string)
    requires Grounded(o) && Judge(o, cap, text) == Doomed
    ensures Len(text) > 0
  {
    assert TrimEnd("") == "";
  }

  /** The reach asked for is two to the stuck count. */
  lemma RewindReach(o: Oracle, cfg: Config, st: State, round: seq<Kept>)
    requires Inv(o, cfg, st)
    requires Judge(o, cfg.cap, TextOf(st.kept + round)) == Doomed
    ensures var next, r := Rewound(st, round), RewindOf(st, round);
            && r.requested == Reach(next.stuck) && next.depth == Reach(next.stuck + 1)
            && next.stuck <= st.stuck + 1
            && Len(TextOf(st.kept + round)) <= next.highWater
  {
    DoomedIsNotEmpty(o, cfg.cap, TextOf(st.kept + round));
    DoubledReach(Rewound(st, round).stuck);
    assert Reach(0) == 1;
  }

  lemma RewindKeepsInv(o: Oracle, cfg: Config, st: State, round: seq<Kept>)
    requires Inv(o, cfg, st) && st.stuck < cfg.budget
    requires GoodRound(o, cfg.cap, st.kept, Round(round, Doomed))
    ensures var next, r := Rewound(st, round), RewindOf(st, round);
            GoodRewind(o, cfg, r) && Inv(o, cfg, next)
  {
    var next, r := Rewound(st, round), RewindOf(st, round);
    RewindSplits(st, round);
    RewindReach(o, cfg, st, round);
    SafePrefix(o, cfg.cap, r.kept, Front(r.discarded));
    TextOfConcat(r.kept, r.discarded);
    RepairedParts(st.kept, round, r.kept, r.discarded);
  }

  /** Counting a round changes nothing a rewind looks at. */
  lemma RewindAfterCount(st: State, round: seq<Kept>)
    ensures RewindOf(Counted(st, round), round) == RewindOf(st, round)
    ensures Rewound(Counted(st, round), round)
            == Rewound(st, round).(tokens := st.tokens + |round|, corrections := Counted(st, round).corrections)
  {
    SameRewind(Counted(st, round), st, round);
  }

  /** A rewind looks at the kept chunks, the high-water mark, the reach and the times stuck. */
  lemma SameRewind(a: State, b: State, round: seq<Kept>)
    requires a.kept == b.kept && a.highWater == b.highWater && a.depth == b.depth && a.stuck == b.stuck
    ensures RewindOf(a, round) == RewindOf(b, round)
  {
  }

  lemma RepairedParts(a: seq<Kept>, b: seq<Kept>, c: seq<Kept>, d: seq<Kept>)
    requires a + b == c + d && AllRepaired(a) && AllRepaired(b)
    ensures AllRepaired(c)
  {
    forall k | k in c
      ensures Repaired(k)
    {
      assert k in c + d;
      assert k in a + b;
    }
  }

  /** A turn that goes round again keeps the invariant. */
  lemma TurnKeepsInv(o: Oracle, cfg: Config, st: State, reply: Reply, next: State, r: Rewind)
    requires Inv(o, cfg, st) && StepOf(o, cfg, st, reply) == Again(next, r)
    ensures Inv(o, cfg, next) && GoodRewind(o, cfg, r)
  {
    var round := TurnRound(o, cfg, st, reply, next, r);
    RewindKeepsInv(o, cfg, st, round);
  }

  /** ... and what it moves. */
  lemma TurnMoves(o: Oracle, cfg: Config, st: State, reply: Reply, next: State, r: Rewind)
    requires Inv(o, cfg, st) && StepOf(o, cfg, st, reply) == Again(next, r)
    ensures next.kept == r.kept && next.pending == Some(PendingOf(r))
    ensures st.kept <= r.kept + r.discarded
    ensures TokenStep(st, r, next) && MarkStep(st, r, next)
  {
    var round := TurnRound(o, cfg, st, reply, next, r);
    RewindSplits(st, round);
  }

  lemma TurnRound(o: Oracle, cfg: Config, st: State, reply: Reply, next: State, r: Rewind) returns (round: seq<Kept>)
    requires Inv(o, cfg, st) && StepOf(o, cfg, st, reply) == Again(next, r)
    ensures st.stuck < cfg.budget && GoodRound(o, cfg.cap, st.kept, Round(round, Doomed))
    ensures r == RewindOf(st, round)
    ensures next == Rewound(st, round).(tokens := st.tokens + |round|, corrections := Counted(st, round).corrections)
  {
    round := FirstRound(o, cfg.cap, st, reply).chunks;
    RewindAfterCount(st, round);
    StreamGoodFrom(o, cfg, st, reply);
  }

  lemma StreamGoodFrom(o: Oracle, cfg: Config, st: State, reply: Reply)
    requires Inv(o, cfg, st)
    ensures GoodRound(o, cfg.cap, st.kept, FirstRound(o, cfg.cap, st, reply))
  {
    var lost := if st.pending.Some? then Some(st.pending.value.discarded) else None;
    StreamGood(o, cfg.cap, st.kept, Marked(lost, reply.chunks));
  }

  // ---- Whole runs as chains of turns

  /** Tokens move: what a turn adds to the kept chunks and the discarded ones, it counted. */
  ghost predicate TokenStep(a: State, r: Rewind, b: State) {
    b.kept == r.kept && b.tokens - |b.kept| == a.tokens - |a.kept| + |r.discarded|
  }

  /** Marks move: the high-water mark takes the longest text; only beating it clears the count. */
  ghost predicate MarkStep(a: State, r: Rewind, b: State) {
    && b.highWater == Max(a.highWater, Len(TextOf(r.kept + r.discarded)))
    && b.stuck == r.stuck == if b.highWater > a.highWater then 0 else a.stuck + 1
  }

  function Waiting(st: State): (ps: seq<Pending>) {
    if st.pending.Some? then [st.pending.value] else []
  }

  /** Rewinds are logged in order with context, discarded text and reach; only the last may
      still lack a replacement. */
  ghost predicate Logged(cs: seq<Correction>, ps: seq<Pending>) {
    && |cs| <= |ps| <= |cs| + 1
    && forall i | 0 <= i < |cs| ::
         cs[i].context == ps[i].context && cs[i].discarded == ps[i].discarded && cs[i].depth == ps[i].depth
  }

  /** The log moves: a turn completes the waiting rewind and leaves its own waiting. */
  ghost predicate LogStep(a: State, r: Rewind, b: State) {
    && b.pending == Some(PendingOf(r))
    && a.corrections <= b.corrections
    && |b.corrections| == |a.corrections| + |Waiting(a)|
    && Logged(b.corrections[|a.corrections|..], Waiting(a))
  }

  ghost predicate Turned(o: Oracle, cfg: Config, a: State, r: Rewind, b: State) {
    && GoodRewind(o, cfg, r) && Inv(o, cfg, b)
    && a.kept <= r.kept + r.discarded
    && TokenStep(a, r, b) && MarkStep(a, r, b) && LogStep(a, r, b)
  }

  /** The states at the top of each turn of a run. */
  ghost predicate Chain(o: Oracle, cfg: Config, states: seq<State>, history: seq<Rewind>) {
    && |states| == |history| + 1
    && Inv(o, cfg, states[0])
    && forall i | 0 <= i < |history| :: Turned(o, cfg, states[i], history[i], states[i + 1])
  }

  lemma TurnIsTurned(o: Oracle, cfg: Config, st: State, reply: Reply, next: State, r: Rewind)
    requires Inv(o, cfg, st) && StepOf(o, cfg, st, reply) == Again(next, r)
    ensures Turned(o, cfg, st, r, next)
  {
    TurnKeepsInv(o, cfg, st, reply, next, r);
    TurnMoves(o, cfg, st, reply, next, r);
    var round := TurnRound(o, cfg, st, reply, next, r);
    CountedLogs(st, round);
  }

  lemma CountedLogs(st: State, round: seq<Kept>)
    ensures var cs := Counted(st, round).corrections;
            && st.corrections <= cs
            && Logged(cs[|st.corrections|..], Waiting(st))
            && (round != [] || st.pending.None? ==> |cs| == |st.corrections| + |Waiting(st)|)
  {
  }

  lemma InitialInv(o: Oracle, cfg: Config)
    requires Grounded(o)
    ensures Inv(o, cfg, INITIAL)
  {
  }

  /** Every run is a chain of good turns and then a last one that does not go round again. */
  lemma {:induction false} LoopIsChain(o: Oracle, cfg: Config, st: State, replies: seq<Reply>, t: Trace)
    returns (states: seq<State>)
    requires Inv(o, cfg, st) && t == Loop(o, cfg, st, replies)
    ensures Chain(o, cfg, states, t.history) && states[0] == st
    ensures |t.history| <= |replies|
    ensures Loop(o, cfg, states[|t.history|], replies[|t.history|..]) == Trace([], t.outcome)
    decreases |replies|
  {
    states := [st];
    assert replies[0..] == replies;
    if replies != [] {
      var step := StepOf(o, cfg, st, replies[0]);
      if step.Again? {
        TurnIsTurned(o, cfg, st, replies[0], step.st, step.rewind);
        var rest := Loop(o, cfg, step.st, replies[1..]);
        var more := LoopIsChain(o, cfg, step.st, replies[1..], rest);
        states := [st] + more;
        ChainCons(o, cfg, st, step.rewind, more, rest.history);
        assert replies[|t.history|..] == replies[1..][|rest.history|..];
      }
    }
  }

  lemma ChainCons(o: Oracle, cfg: Config, st: State, r: Rewind, states: seq<State>, history: seq<Rewind>)
    requires Inv(o, cfg, st) && Chain(o, cfg, states, history) && Turned(o, cfg, st, r, states[0])
    ensures Chain(o, cfg, [st] + states, [r] + history)
  {
    var s, h := [st] + states, [r] + history;
    forall i | 0 <= i < |h|
      ensures Turned(o, cfg, s[i], h[i], s[i + 1])
    {
      if i > 0 {
        assert s[i] == states[i - 1] && h[i] == history[i - 1] && s[i + 1] == states[i];
      }
    }
  }

  lemma ChainInv(o: Oracle, cfg: Config, states: seq<State>, history: seq<Rewind>, i: nat)
    requires Chain(o, cfg, states, history) && i < |states|
    ensures Inv(o, cfg, states[i])
  {
    if i > 0 {
      assert Turned(o, cfg, states[i - 1], history[i - 1], states[i]);
    }
  }

  /** How many chunks the rewinds of a run threw away. */
  function Dropped(history: seq<Rewind>): (n: nat) {
    if history == [] then 0 else Dropped(history[..|history| - 1]) + |history[|history| - 1].discarded|
  }

  lemma {:induction false} ChainTokens(states: seq<State>, history: seq<Rewind>)
    requires |states| == |history| + 1 && states[0].tokens == |states[0].kept|
    requires forall i | 0 <= i < |history| :: TokenStep(states[i], history[i], states[i + 1])
    ensures states[|history|].tokens == |states[|history|].kept| + Dropped(history)
    decreases |history|
  {
    if history != [] {
      var n := |history| - 1;
      ChainTokens(states[..n + 1], history[..n]);
      assert TokenStep(states[n], history[n], states[n + 1]);
    }
  }

  /** How a finished run relates to the chunks that survived it. A guarded return is exactly
      their concatenation, safe at every boundary and within the cap, or cut by the cap at the
      last one. A run that gave up resumes from safe chunks, drops the doomed round and goes on
      unguarded. Either way every chunk the model sent is accounted for. */
  ghost predicate Accounted(
      o: Oracle, cfg: Config, run: Run, dropped: nat, survivors: seq<Kept>, doomed: seq<Kept>, tail: seq<string>)
  {
    && AllRepaired(survivors)
    && run.tokens == |survivors| + |doomed| + |tail| + dropped
    && if !run.abandoned then
         && doomed == [] && tail == []
         && run.raw == TextOf(survivors)
         && if run.overlong then
              survivors != [] && Safe(o, cfg.cap, Front(survivors)) && TooLong(o, cfg.cap, run.raw)
            else Safe(o, cfg.cap, survivors)
       else
         && doomed != []
         && Judge(o, cfg.cap, TextOf(survivors + doomed)) == Doomed
         && Safe(o, cfg.cap, survivors + Front(doomed))
         && exists sep :: ResumedWith(o, cfg.cap, sep, TextOf(survivors), TextOf(doomed), tail, run)
  }

  /** The unguarded finish: the text kept, the separator that the lost text calls for, and the
      chunks taken, up to the first that is beyond the cap. */
  ghost predicate ResumedWith(
      o: Oracle, cap: nat, sep: string, text: string, lost: string, tail: seq<string>, run: Run)
  {
    && (if tail == [] then sep == "" else Separates(sep, lost, tail[0]))
    && run.raw == text + sep + Join(tail)
    && (run.overlong <==> tail != [] && TooLong(o, cap, run.raw))
    && forall i | 0 < i < |tail| :: !TooLong(o, cap, text + sep + Join(tail[..i]))
  }

  /** What text the last rewind took away, for the next chunk to repair. */
  function LostOf(st: State): (lost: Option<string>) {
    if st.pending.Some? then Some(st.pending.value.discarded) else None
  }

  /** `written` is what was kept and then the first chunks of the reply, as the model sent them
      and in its order, the first behind the separator that the lost text calls for. */
  ghost predicate Heard(kept: seq<Kept>, lost: Option<string>, reply: Reply, written: seq<Kept>) {
    && kept <= written && |written| <= |kept| + |reply.chunks|
    && forall i | |kept| <= i < |written| :: HeardChunk(written[i], lost, reply, i - |kept|)
  }

  /** A chunk as it is kept: the model's own, with a separator only before the first, the one that
      the lost text calls for. */
  ghost predicate HeardChunk(k: Kept, lost: Option<string>, reply: Reply, i: nat)
    requires i < |reply.chunks|
  {
    && k.chunk == reply.chunks[i]
    && if i == 0 && lost.Some? then Separates(k.sep, lost.value, k.chunk) else k.sep == ""
  }

  lemma MarkedHeard(lost: Option<string>, reply: Reply, i: nat)
    requires i < |reply.chunks|
    ensures HeardChunk(Marked(lost, reply.chunks)[i], lost, reply, i)
  {
    if i == 0 && lost.Some? { LostSeparatorSeparates(lost.value, reply.chunks[0]); }
  }

  lemma StreamHeard(kept: seq<Kept>, lost: Option<string>, reply: Reply, n: nat)
    requires n <= |reply.chunks|
    ensures Heard(kept, lost, reply, kept + Marked(lost, reply.chunks)[..n])
  {
    var written := kept + Marked(lost, reply.chunks)[..n];
    forall i | |kept| <= i < |written|
      ensures HeardChunk(written[i], lost, reply, i - |kept|)
    {
      MarkedHeard(lost, reply, i - |kept|);
    }
  }

  /** Where the last chunks came from. A guarded return has heard the last reply to its end,
      unless the cap cut it; an unguarded one drops what it heard of the last reply but one and
      takes the last to its end, unless the cap cut that. */
  ghost predicate LastHeard(
      kept: seq<Kept>, lost: Option<string>, replies: seq<Reply>, run: Run, survivors: seq<Kept>, doomed: seq<Kept>,
      tail: seq<string>)
  {
    && replies != [] && Heard(kept, lost, replies[0], survivors + doomed)
    && if !run.abandoned then
         && doomed == [] && tail == []
         && (!run.overlong ==> |survivors| == |kept| + |replies[0].chunks| && replies[0].failure.None?)
       else
         && survivors == kept && |replies| > 1 && tail <= replies[1].chunks
         && (!run.overlong ==> tail == replies[1].chunks && replies[1].failure.None?)
  }

  lemma DoneAccounted(o: Oracle, cfg: Config, st: State, replies: seq<Reply>, run: Run, dropped: nat)
    returns (survivors: seq<Kept>)
    requires Inv(o, cfg, st) && st.tokens == |st.kept| + dropped
    requires replies != [] && StepOf(o, cfg, st, replies[0]) == Done(Finished(run))
    ensures Accounted(o, cfg, run, dropped, survivors, [], [])
    ensures LastHeard(st.kept, LostOf(st), replies, run, survivors, [], [])
  {
    StreamGoodFrom(o, cfg, st, replies[0]);
    var round := FirstRound(o, cfg.cap, st, replies[0]);
    survivors := st.kept + round.chunks;
    if round.verdict == Overlong {
      assert Front(survivors) == st.kept + Front(round.chunks);
    }
    RoundHeard(o, cfg.cap, st, replies[0]);
    assert survivors + [] == survivors;
  }

  /** A round is heard from the reply, all of it if it was fine throughout. */
  lemma RoundHeard(o: Oracle, cap: nat, st: State, reply: Reply)
    ensures var round := FirstRound(o, cap, st, reply);
            && Heard(st.kept, LostOf(st), reply, st.kept + round.chunks)
            && (round.verdict == Fine ==> |round.chunks| == |reply.chunks|)
  {
    var round := FirstRound(o, cap, st, reply);
    assert round.chunks == Marked(LostOf(st), reply.chunks)[..|round.chunks|];
    StreamHeard(st.kept, LostOf(st), reply, |round.chunks|);
  }

  lemma {:induction false} FinishOpens(o: Oracle, cap: nat, prefix: string, done: seq<string>, chunks: seq<string>)
    ensures done <= Finish(o, cap, prefix, done, chunks)
    ensures chunks != [] ==> done + [chunks[0]] <= Finish(o, cap, prefix, done, chunks)
    decreases |chunks|
  {
    if chunks != [] && !TooLong(o, cap, prefix + Join(done + [chunks[0]])) {
      FinishOpens(o, cap, prefix, done + [chunks[0]], chunks[1..]);
    }
  }

  /** The unguarded finish takes the chunks as they come, and all of them unless the cap stops it. */
  lemma {:induction false} FinishTakes(o: Oracle, cap: nat, prefix: string, done: seq<string>, chunks: seq<string>)
    ensures var r := Finish(o, cap, prefix, done, chunks);
            && r <= done + chunks
            && (r != done + chunks ==> r != [] && TooLong(o, cap, prefix + Join(r)))
            && forall i | |done| < i < |r| :: !TooLong(o, cap, prefix + Join(r[..i]))
    decreases |chunks|
  {
    if chunks == [] {
      assert done + chunks == done;
    } else {
      var more := done + [chunks[0]];
      assert more + chunks[1..] == done + chunks;
      if !TooLong(o, cap, prefix + Join(more)) {
        FinishTakes(o, cap, prefix, more, chunks[1..]);
        FinishOpens(o, cap, prefix, more, chunks[1..]);
        assert Finish(o, cap, prefix, more, chunks[1..])[..|more|] == more;
      }
    }
  }

  lemma GiveUpAccounted(o: Oracle, cfg: Config, now: State, doomed: seq<Kept>, reply: Reply, run: Run)
    returns (tail: seq<string>)
    requires GiveUp(o, cfg.cap, now, doomed, reply) == Finished(run)
    ensures run.abandoned && run.tokens == now.tokens + |tail|
    ensures exists sep :: ResumedWith(o, cfg.cap, sep, TextOf(now.kept), TextOf(doomed), tail, run)
    ensures tail <= reply.chunks && (!run.overlong ==> tail == reply.chunks && reply.failure.None?)
  {
    var sep := if reply.chunks == [] then "" else LostSeparator(TextOf(doomed), reply.chunks[0]);
    var prefix := TextOf(now.kept) + sep;
    if reply.chunks != [] { LostSeparatorSeparates(TextOf(doomed), reply.chunks[0]); }
    tail := Finish(o, cfg.cap, prefix, [], reply.chunks);
    FinishOpens(o, cfg.cap, prefix, [], reply.chunks);
    FinishTakes(o, cfg.cap, prefix, [], reply.chunks);
    assert [] + reply.chunks == reply.chunks;
    assert ResumedWith(o, cfg.cap, sep, TextOf(now.kept), TextOf(doomed), tail, run);
  }

  lemma ExhaustedRound(o: Oracle, cfg: Config, st: State, reply: Reply, now: State, doomed: seq<Kept>)
    requires Inv(o, cfg, st) && StepOf(o, cfg, st, reply) == Exhausted(now, doomed)
    ensures now == Counted(st, doomed) && GoodRound(o, cfg.cap, st.kept, Round(doomed, Doomed))
    ensures doomed == FirstRound(o, cfg.cap, st, reply).chunks
  {
    StreamGoodFrom(o, cfg, st, reply);
  }

  lemma LastTurnAccounted(o: Oracle, cfg: Config, st: State, replies: seq<Reply>, run: Run, dropped: nat)
    returns (survivors: seq<Kept>, doomed: seq<Kept>, tail: seq<string>)
    requires Inv(o, cfg, st) && st.tokens == |st.kept| + dropped
    requires Loop(o, cfg, st, replies) == Trace([], Finished(run))
    ensures Accounted(o, cfg, run, dropped, survivors, doomed, tail)
    ensures LastHeard(st.kept, LostOf(st), replies, run, survivors, doomed, tail)
  {
    var step := StepOf(o, cfg, st, replies[0]);
    if step.Done? {
      doomed, tail := [], [];
      survivors := DoneAccounted(o, cfg, st, replies, run, dropped);
    } else {
      ExhaustedRound(o, cfg, st, replies[0], step.st, step.dropped);
      survivors, doomed := st.kept, step.dropped;
      tail := GiveUpAccounted(o, cfg, step.st, step.dropped, replies[1], run);
      RoundHeard(o, cfg.cap, st, replies[0]);
    }
  }

  ghost predicate AllGood(o: Oracle, cfg: Config, history: seq<Rewind>) {
    forall i | 0 <= i < |history| :: GoodRewind(o, cfg, history[i])
  }

  lemma ChainGood(o: Oracle, cfg: Config, states: seq<State>, history: seq<Rewind>)
    requires Chain(o, cfg, states, history)
    ensures AllGood(o, cfg, history)
    ensures forall i | 0 <= i < |history| :: TokenStep(states[i], history[i], states[i + 1])
    ensures forall i | 0 <= i < |history| :: MarkStep(states[i], history[i], states[i + 1])
    ensures forall i | 0 <= i < |history| :: LogStep(states[i], history[i], states[i + 1])
  {
    forall i | 0 <= i < |history|
      ensures GoodRewind(o, cfg, history[i])
    {
      assert Turned(o, cfg, states[i], history[i], states[i + 1]);
    }
  }

  // ---- Whole runs against what the model sent

  /** What is kept, and what text was last taken away, at the top of turn `i` of a run that began
      with `kept` and `lost`. */
  function KeptAt(kept: seq<Kept>, history: seq<Rewind>, i: nat): (r: seq<Kept>)
    requires i <= |history|
  {
    if i == 0 then kept else history[i - 1].kept
  }

  function LostAt(lost: Option<string>, history: seq<Rewind>, i: nat): (r: Option<string>)
    requires i <= |history|
  {
    if i == 0 then lost else Some(TextOf(history[i - 1].discarded))
  }

  /** Each rewind splits what was kept before it and what it heard of its own reply. */
  ghost predicate TurnHeard(kept: seq<Kept>, lost: Option<string>, history: seq<Rewind>, replies: seq<Reply>, i: nat)
    requires i < |history| && i < |replies|
  {
    Heard(KeptAt(kept, history, i), LostAt(lost, history, i), replies[i], history[i].kept + history[i].discarded)
  }

  ghost predicate AllHeard(kept: seq<Kept>, lost: Option<string>, history: seq<Rewind>, replies: seq<Reply>) {
    |history| <= |replies| && forall i | 0 <= i < |history| :: TurnHeard(kept, lost, history, replies, i)
  }

  lemma OneTurnHeard(o: Oracle, cfg: Config, st: State, reply: Reply, next: State, r: Rewind)
    requires Inv(o, cfg, st) && StepOf(o, cfg, st, reply) == Again(next, r)
    ensures Heard(st.kept, LostOf(st), reply, r.kept + r.discarded)
    ensures Inv(o, cfg, next) && next.kept == r.kept && LostOf(next) == Some(TextOf(r.discarded))
  {
    TurnKeepsInv(o, cfg, st, reply, next, r);
    TurnMoves(o, cfg, st, reply, next, r);
    RoundHeard(o, cfg.cap, st, reply);
    StreamGoodFrom(o, cfg, st, reply);
    var round := FirstRound(o, cfg.cap, st, reply).chunks;
    RewindAfterCount(st, round);
    RewindSplits(st, round);
  }

  lemma TurnHeardCons(
      kept: seq<Kept>, lost: Option<string>, r: Rewind, history: seq<Rewind>, replies: seq<Reply>, i: nat)
    requires i < |history| && i + 1 < |replies|
    requires TurnHeard(r.kept, Some(TextOf(r.discarded)), history, replies[1..], i)
    ensures TurnHeard(kept, lost, [r] + history, replies, i + 1)
  {
    var all := [r] + history;
    assert all[i + 1] == history[i] && replies[1..][i] == replies[i + 1];
    assert i > 0 ==> all[i] == history[i - 1];
  }

  lemma HeardCons(kept: seq<Kept>, lost: Option<string>, r: Rewind, history: seq<Rewind>, replies: seq<Reply>)
    requires replies != [] && Heard(kept, lost, replies[0], r.kept + r.discarded)
    requires AllHeard(r.kept, Some(TextOf(r.discarded)), history, replies[1..])
    ensures AllHeard(kept, lost, [r] + history, replies)
  {
    var all := [r] + history;
    forall i | 0 <= i < |all|
      ensures TurnHeard(kept, lost, all, replies, i)
    {
      if i > 0 {
        TurnHeardCons(kept, lost, r, history, replies, i - 1);
      }
    }
  }

  lemma {:induction false} LoopHears(o: Oracle, cfg: Config, st: State, replies: seq<Reply>, t: Trace)
    requires Inv(o, cfg, st) && t == Loop(o, cfg, st, replies)
    ensures AllHeard(st.kept, LostOf(st), t.history, replies)
    decreases |replies|
  {
    if replies != [] && StepOf(o, cfg, st, replies[0]).Again? {
      var step := StepOf(o, cfg, st, replies[0]);
      OneTurnHeard(o, cfg, st, replies[0], step.st, step.rewind);
      var rest := Loop(o, cfg, step.st, replies[1..]);
      LoopHears(o, cfg, step.st, replies[1..], rest);
      HeardCons(st.kept, LostOf(st), step.rewind, rest.history, replies);
    }
  }

  /** The state at the top of the last turn, in terms of the history. */
  lemma ChainEnd(o: Oracle, cfg: Config, states: seq<State>, history: seq<Rewind>)
    requires Chain(o, cfg, states, history)
    ensures states[|history|].kept == KeptAt(states[0].kept, history, |history|)
    ensures LostOf(states[|history|]) == LostAt(LostOf(states[0]), history, |history|)
  {
    var n := |history|;
    if n > 0 {
      assert Turned(o, cfg, states[n - 1], history[n - 1], states[n]);
    }
  }

  /** Everything the model sent, followed to where it went: each rewind and the last round are what
      was kept and then the reply's own chunks, and the result is what survives of them. */
  ghost predicate Traced(
      kept: seq<Kept>, lost: Option<string>, t: Trace, replies: seq<Reply>, survivors: seq<Kept>, doomed: seq<Kept>,
      tail: seq<string>)
    requires t.outcome.Finished?
  {
    var n := |t.history|;
    && AllHeard(kept, lost, t.history, replies)
    && LastHeard(
         KeptAt(kept, t.history, n), LostAt(lost, t.history, n), replies[n..], t.outcome.run, survivors, doomed, tail)
  }

  lemma RunAccounted(o: Oracle, cfg: Config, st: State, replies: seq<Reply>, t: Trace)
    returns (survivors: seq<Kept>, doomed: seq<Kept>, tail: seq<string>)
    requires Inv(o, cfg, st) && st.tokens == |st.kept|
    requires t == Loop(o, cfg, st, replies) && t.outcome.Finished?
    ensures AllGood(o, cfg, t.history)
    ensures Accounted(o, cfg, t.outcome.run, Dropped(t.history), survivors, doomed, tail)
    ensures Traced(st.kept, LostOf(st), t, replies, survivors, doomed, tail)
  {
    var states := LoopIsChain(o, cfg, st, replies, t);
    var n := |t.history|;
    LoopHears(o, cfg, st, replies, t);
    ChainGood(o, cfg, states, t.history);
    ChainTokens(states, t.history);
    ChainInv(o, cfg, states, t.history, n);
    ChainEnd(o, cfg, states, t.history);
    survivors, doomed, tail :=
      LastTurnAccounted(o, cfg, states[n], replies[n..], t.outcome.run, Dropped(t.history));
  }

  /** Every run of the loop, against every model: its rewinds are good, and its result is made of
      the chunks the model sent, every one of them accounted for. */
  lemma EveryRunAccounted(o: Oracle, cfg: Config, replies: seq<Reply>, t: Trace)
    returns (survivors: seq<Kept>, doomed: seq<Kept>, tail: seq<string>)
    requires Grounded(o) && t == Loop(o, cfg, INITIAL, replies) && t.outcome.Finished?
    ensures AllGood(o, cfg, t.history)
    ensures Accounted(o, cfg, t.outcome.run, Dropped(t.history), survivors, doomed, tail)
    ensures Traced([], None, t, replies, survivors, doomed, tail)
  {
    InitialInv(o, cfg);
    survivors, doomed, tail := RunAccounted(o, cfg, INITIAL, replies, t);
  }

  lemma ShorterIsFine(o: Oracle, cap: nat, w: seq<Kept>, w': seq<Kept>)
    requires w != [] && w <= w' && |w| < |w'| && Safe(o, cap, Front(w'))
    ensures Judge(o, cap, TextOf(w)) == Fine
  {
    assert Front(w')[..|w|] == w;
  }

  lemma HeardPrefix(kept: seq<Kept>, lost: Option<string>, reply: Reply, w: seq<Kept>, w': seq<Kept>)
    requires Heard(kept, lost, reply, w) && Heard(kept, lost, reply, w') && |w| <= |w'|
    ensures w <= w'
  {
    forall i | 0 <= i < |w|
      ensures w[i] == w'[i]
    {
      if i < |kept| {
        assert w[i] == kept[i] && w'[i] == kept[i];
      } else {
        HeardOnce(w[i], w'[i], lost, reply, i - |kept|);
      }
    }
  }

  lemma HeardOnce(k: Kept, k': Kept, lost: Option<string>, reply: Reply, i: nat)
    requires i < |reply.chunks| && HeardChunk(k, lost, reply, i) && HeardChunk(k', lost, reply, i)
    ensures k == k'
  {
    if i == 0 && lost.Some? { SeparatesOnce(k.sep, k'.sep, lost.value, k.chunk); }
  }

  /** The last chunk is the first that was not fine. */
  ghost predicate Stopped(o: Oracle, cap: nat, w: seq<Kept>) {
    w != [] && Judge(o, cap, TextOf(w)) != Fine && Safe(o, cap, Front(w))
  }

  lemma StoppedNotShorter(
      o: Oracle, cap: nat, kept: seq<Kept>, lost: Option<string>, reply: Reply, w: seq<Kept>, w': seq<Kept>)
    requires Stopped(o, cap, w) && Stopped(o, cap, w') && Heard(kept, lost, reply, w) && Heard(kept, lost, reply, w')
    ensures |w| >= |w'|
  {
    if |w| < |w'| {
      HeardPrefix(kept, lost, reply, w, w');
      ShorterIsFine(o, cap, w, w');
    }
  }

  lemma AccountStops(
      o: Oracle, cfg: Config, run: Run, dropped: nat, s: seq<Kept>, d: seq<Kept>, tail: seq<string>)
    requires Accounted(o, cfg, run, dropped, s, d, tail) && (run.abandoned || run.overlong)
    ensures Stopped(o, cfg.cap, s + d)
  {
    if run.abandoned {
      assert Front(s + d) == s + Front(d);
    } else {
      assert s + d == s;
    }
  }

  /** Two accounts of one run heard as much of the last guarded reply. */
  lemma HeardAsMuch(
      o: Oracle, cfg: Config, run: Run, dropped: nat, kept: seq<Kept>, lost: Option<string>, replies: seq<Reply>,
      s: seq<Kept>, d: seq<Kept>, tail: seq<string>, s': seq<Kept>, d': seq<Kept>, tail': seq<string>)
    requires Accounted(o, cfg, run, dropped, s, d, tail) && LastHeard(kept, lost, replies, run, s, d, tail)
    requires Accounted(o, cfg, run, dropped, s', d', tail') && LastHeard(kept, lost, replies, run, s', d', tail')
    ensures |s + d| == |s' + d'|
  {
    if run.abandoned || run.overlong {
      AccountStops(o, cfg, run, dropped, s, d, tail);
      AccountStops(o, cfg, run, dropped, s', d', tail');
      StoppedNotShorter(o, cfg.cap, kept, lost, replies[0], s + d, s' + d');
      StoppedNotShorter(o, cfg.cap, kept, lost, replies[0], s' + d', s + d);
    }
  }

  /** There is only one account of a run: the chunks that survived it, those it dropped and those
      it took unguarded are decided by what the model sent. */
  lemma OneAccount(
      o: Oracle, cfg: Config, t: Trace, replies: seq<Reply>,
      s: seq<Kept>, d: seq<Kept>, tail: seq<string>, s': seq<Kept>, d': seq<Kept>, tail': seq<string>)
    requires t.outcome.Finished?
    requires Accounted(o, cfg, t.outcome.run, Dropped(t.history), s, d, tail)
    requires Traced([], None, t, replies, s, d, tail)
    requires Accounted(o, cfg, t.outcome.run, Dropped(t.history), s', d', tail')
    requires Traced([], None, t, replies, s', d', tail')
    ensures s == s' && d == d' && tail == tail'
  {
    var n, run := |t.history|, t.outcome.run;
    var kept, lost := KeptAt([], t.history, n), LostAt(None, t.history, n);
    HeardAsMuch(o, cfg, run, Dropped(t.history), kept, lost, replies[n..], s, d, tail, s', d', tail');
    HeardPrefix(kept, lost, replies[n], s + d, s' + d');
    assert s + d == s' + d';
    assert |s| == |s'|;
    assert s == (s + d)[..|s|] && d == (s + d)[|s|..];
    assert s' == (s' + d')[..|s'|] && d' == (s' + d')[|s'|..];
  }
}
