/** When a run of the correction loop gives up, fails or waits, against what the model sent
    (cram-gen/src/lib.rs). */
module CramOutcomes {
  import opened Words
  import opened CramLoop
  import opened CramText
  import opened CramProofs

  /** How often the loop had been stuck in a row at the end of these rewinds. */
  function StuckAfter(stuck: nat, history: seq<Rewind>): (n: nat) {
    if history == [] then stuck else history[|history| - 1].stuck
  }

  /** The whole reply was heard and nothing of it was doomed or too long. */
  ghost predicate HeardOut(o: Oracle, cap: nat, kept: seq<Kept>, lost: Option<string>, reply: Reply, all: seq<Kept>) {
    Heard(kept, lost, reply, all) && |all| == |kept| + |reply.chunks| && Safe(o, cap, all)
  }

  /** The reply was heard as far as the chunk that doomed it. */
  ghost predicate HeardDoomed(
      o: Oracle, cap: nat, kept: seq<Kept>, lost: Option<string>, reply: Reply, doomed: seq<Kept>)
  {
    && Heard(kept, lost, reply, kept + doomed) && doomed != []
    && Judge(o, cap, TextOf(kept + doomed)) == Doomed && Safe(o, cap, kept + Front(doomed))
  }

  /** No chunk after `prefix` takes it past the cap. */
  ghost predicate WithinCap(o: Oracle, cap: nat, prefix: string, chunks: seq<string>) {
    forall i | 0 < i <= |chunks| :: !TooLong(o, cap, prefix + Join(chunks[..i]))
  }

  ghost predicate SeparatesFirst(sep: string, lost: string, chunks: seq<string>) {
    if chunks == [] then sep == "" else Separates(sep, lost, chunks[0])
  }

  /** The last reply was taken to its end without passing the cap. */
  ghost predicate TakenOut(o: Oracle, cap: nat, kept: seq<Kept>, doomed: seq<Kept>, chunks: seq<string>) {
    exists sep :: SeparatesFirst(sep, TextOf(doomed), chunks) && WithinCap(o, cap, TextOf(kept) + sep, chunks)
  }

  /** How the last turn of a run ends. The loop gives up only when it has been stuck as often as
      its budget allows. It fails only with the error of the reply it heard, or took, to its end.
      It waits only when there is no reply to the call it makes. */
  ghost predicate EndsAs(
      o: Oracle, cfg: Config, kept: seq<Kept>, lost: Option<string>, stuck: nat, replies: seq<Reply>, outcome: Outcome)
  {
    match outcome
    case Finished(run) =>
      replies != [] && (run.abandoned ==> stuck == cfg.budget)
    case Failed(error) =>
      || (replies != [] && replies[0].failure == Some(error)
          && exists all :: HeardOut(o, cfg.cap, kept, lost, replies[0], all))
      || (stuck == cfg.budget && |replies| > 1 && replies[1].failure == Some(error)
          && exists doomed ::
               HeardDoomed(o, cfg.cap, kept, lost, replies[0], doomed)
               && TakenOut(o, cfg.cap, kept, doomed, replies[1].chunks))
    case Suspended =>
      || replies == []
      || (stuck == cfg.budget && |replies| == 1
          && exists doomed :: HeardDoomed(o, cfg.cap, kept, lost, replies[0], doomed))
  }

  lemma FailedHearsOut(o: Oracle, cfg: Config, st: State, replies: seq<Reply>, error: string)
    requires Inv(o, cfg, st) && replies != [] && StepOf(o, cfg, st, replies[0]) == Done(Failed(error))
    ensures EndsAs(o, cfg, st.kept, LostOf(st), st.stuck, replies, Failed(error))
  {
    StreamGoodFrom(o, cfg, st, replies[0]);
    RoundHeard(o, cfg.cap, st, replies[0]);
    var all := st.kept + FirstRound(o, cfg.cap, st, replies[0]).chunks;
    assert HeardOut(o, cfg.cap, st.kept, LostOf(st), replies[0], all);
  }

  lemma ExhaustedIsDoomed(o: Oracle, cfg: Config, st: State, reply: Reply, now: State, doomed: seq<Kept>)
    requires Inv(o, cfg, st) && StepOf(o, cfg, st, reply) == Exhausted(now, doomed)
    ensures st.stuck == cfg.budget && HeardDoomed(o, cfg.cap, st.kept, LostOf(st), reply, doomed)
    ensures now.kept == st.kept
  {
    ExhaustedRound(o, cfg, st, reply, now, doomed);
    RoundHeard(o, cfg.cap, st, reply);
  }

  lemma AllWithin(o: Oracle, cap: nat, prefix: string, chunks: seq<string>)
    requires forall i | 0 < i < |chunks| :: !TooLong(o, cap, prefix + Join(chunks[..i]))
    requires chunks == [] || !TooLong(o, cap, prefix + Join(chunks))
    ensures WithinCap(o, cap, prefix, chunks)
  {
    assert chunks[..|chunks|] == chunks;
  }

  lemma FinishWithin(o: Oracle, cap: nat, prefix: string, chunks: seq<string>, tail: seq<string>)
    requires tail == Finish(o, cap, prefix, [], chunks)
    requires tail == [] || !TooLong(o, cap, prefix + Join(tail))
    ensures WithinCap(o, cap, prefix, chunks)
  {
    FinishTakes(o, cap, prefix, [], chunks);
    assert [] + chunks == chunks;
    AllWithin(o, cap, prefix, chunks);
  }

  lemma FailedTakesOut(o: Oracle, cap: nat, now: State, doomed: seq<Kept>, reply: Reply, error: string)
    requires GiveUp(o, cap, now, doomed, reply) == Failed(error)
    ensures reply.failure == Some(error) && TakenOut(o, cap, now.kept, doomed, reply.chunks)
  {
    var chunks := reply.chunks;
    var sep := if chunks == [] then "" else LostSeparator(TextOf(doomed), chunks[0]);
    var prefix := TextOf(now.kept) + sep;
    FinishWithin(o, cap, prefix, chunks, Finish(o, cap, prefix, [], chunks));
    if chunks != [] { LostSeparatorSeparates(TextOf(doomed), chunks[0]); }
    assert SeparatesFirst(sep, TextOf(doomed), chunks);
  }

  lemma LastTurnEnds(o: Oracle, cfg: Config, st: State, replies: seq<Reply>, outcome: Outcome)
    requires Inv(o, cfg, st) && Loop(o, cfg, st, replies) == Trace([], outcome)
    ensures EndsAs(o, cfg, st.kept, LostOf(st), st.stuck, replies, outcome)
  {
    if replies != [] {
      var step := StepOf(o, cfg, st, replies[0]);
      if step.Done? {
        if outcome.Failed? { FailedHearsOut(o, cfg, st, replies, outcome.error); }
      } else {
        ExhaustedIsDoomed(o, cfg, st, replies[0], step.st, step.dropped);
        if outcome.Failed? {
          FailedTakesOut(o, cfg.cap, step.st, step.dropped, replies[1], outcome.error);
        }
      }
    }
  }

  lemma ChainStuck(o: Oracle, cfg: Config, states: seq<State>, history: seq<Rewind>)
    requires Chain(o, cfg, states, history)
    ensures states[|history|].stuck == StuckAfter(states[0].stuck, history)
  {
    var n := |history|;
    if n > 0 {
      assert Turned(o, cfg, states[n - 1], history[n - 1], states[n]);
    }
  }

  /** Every run of the loop, however it comes out. */
  lemma EveryRunEnds(o: Oracle, cfg: Config, replies: seq<Reply>, t: Trace)
    requires Grounded(o) && t == Loop(o, cfg, INITIAL, replies)
    ensures var n := |t.history|;
            && n <= |replies|
            && EndsAs(o, cfg, KeptAt([], t.history, n), LostAt(None, t.history, n), StuckAfter(0, t.history),
                      replies[n..], t.outcome)
  {
    InitialInv(o, cfg);
    var states := LoopIsChain(o, cfg, INITIAL, replies, t);
    var n := |t.history|;
    ChainInv(o, cfg, states, t.history, n);
    ChainEnd(o, cfg, states, t.history);
    ChainStuck(o, cfg, states, t.history);
    LastTurnEnds(o, cfg, states[n], replies[n..], t.outcome);
  }
}
