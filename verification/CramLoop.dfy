/** The correction loop of corpus generation: stream a program from a model, rewind when it can
    no longer be completed, resume from the surviving prefix (cram-gen/src/lib.rs). */
module CramLoop {
  import opened Words

  // ---- Text

  /** Bytes a character occupies in UTF-8. */
  function CharBytes(c: char): (n: nat) {
    if c as int < 0x80 then 1 else if c as int < 0x800 then 2 else if c as int < 0x1_0000 then 3 else 4
  }

  /** `str::len`: bytes, not characters. */
  function Len(s: string): (n: nat) {
    if s == "" then 0 else CharBytes(s[0]) + Len(s[1..])
  }

  /** The Unicode `White_Space` property. */
  predicate Whitespace(c: char) {
    var n := c as int;
    || 0x09 <= n <= 0x0D || n == 0x20 || n == 0x85 || n == 0xA0 || n == 0x1680
    || 0x2000 <= n <= 0x200A || n == 0x2028 || n == 0x2029 || n == 0x202F || n == 0x205F || n == 0x3000
  }

  function TrimEnd(s: string): (t: string) {
    if s != "" && Whitespace(s[|s| - 1]) then TrimEnd(s[..|s| - 1]) else s
  }

  /** The whitespace `s` opens with. */
  function LeadingSpace(s: string): (t: string)
    ensures t <= s && forall c | c in t :: Whitespace(c)
    ensures |t| < |s| ==> !Whitespace(s[|t|])
  {
    if s != "" && Whitespace(s[0]) then [s[0]] + LeadingSpace(s[1..]) else ""
  }

  /** What a resumed completion dropped at the boundary: the discarded text's own leading
      whitespace, unless the replacement brought some. */
  function LostSeparator(discarded: string, replacement: string): (sep: string) {
    if replacement != "" && Whitespace(replacement[0]) then "" else LeadingSpace(discarded)
  }

  const CORRECTION_CONTEXT: nat := 240

  /** The longest suffix within `CORRECTION_CONTEXT` bytes. */
  function Tail(s: string): (t: string) {
    if Len(s) <= CORRECTION_CONTEXT then s else Tail(s[1..])
  }

  // ---- The world around the loop

  /** What the loop asks of other crates: the program inside a response, and whether a
      non-empty program admits no next token. */
  datatype Oracle = Oracle(extract: string -> string, dead: string -> bool)

  /** One call to the model: the chunks it would stream, stopping early if the callback says
      so, and the error it ends with otherwise, if any. */
  datatype Reply = Reply(chunks: seq<string>, failure: Option<string>)

  datatype Config = Config(budget: nat, cap: nat)

  predicate IsDoomed(o: Oracle, program: string) { program != "" && o.dead(program) }

  datatype Verdict = Fine | Doomed | Overlong

  predicate TooLong(o: Oracle, cap: nat, text: string) { cap > 0 && Len(o.extract(text)) > cap }

  /** The callback's judgement of the response so far. */
  function Judge(o: Oracle, cap: nat, text: string): (v: Verdict) {
    if TooLong(o, cap, text) then Overlong
    else if IsDoomed(o, TrimEnd(o.extract(text))) then Doomed
    else Fine
  }

  // ---- State

  /** A surviving chunk: the model's own words behind the separator put back before them. */
  datatype Kept = Kept(sep: string, chunk: string)

  function TextOf(kept: seq<Kept>): (s: string) {
    if kept == [] then ""
    else TextOf(kept[..|kept| - 1]) + (kept[|kept| - 1].sep + kept[|kept| - 1].chunk)
  }

  datatype Correction = Correction(context: string, discarded: string, replacement: string, depth: nat)

  datatype Pending = Pending(context: string, discarded: string, depth: nat)

  datatype State = State(
    kept: seq<Kept>, tokens: nat, corrections: seq<Correction>, pending: Option<Pending>,
    depth: nat, stuck: nat, highWater: nat)

  const INITIAL := State([], 0, [], None, 1, 0, 0)

  datatype Run = Run(raw: string, tokens: nat, abandoned: bool, overlong: bool, corrections: seq<Correction>)

  /** `Suspended` when the model's replies run out before the loop returns. */
  datatype Outcome = Finished(run: Run) | Failed(error: string) | Suspended

  /** A rewind: what survives of the text, what is discarded after it, and the reach asked for. */
  datatype Rewind = Rewind(kept: seq<Kept>, discarded: seq<Kept>, requested: nat, stuck: nat)

  datatype Trace = Trace(history: seq<Rewind>, outcome: Outcome)

  // ---- One round

  datatype Round = Round(chunks: seq<Kept>, verdict: Verdict)

  /** The chunks as they are kept: the model's words, the first behind the separator that
      `lost` text calls for. */
  function Marked(lost: Option<string>, chunks: seq<string>): (r: seq<Kept>)
    ensures |r| == |chunks|
    ensures forall i | 0 <= i < |r| :: r[i].chunk == chunks[i] && (i > 0 || lost.None? ==> r[i].sep == "")
    ensures r != [] && lost.Some? ==> r[0].sep == LostSeparator(lost.value, chunks[0])
  {
    seq(|chunks|, i requires 0 <= i < |chunks| =>
      Kept(if i == 0 && lost.Some? then LostSeparator(lost.value, chunks[0]) else "", chunks[i]))
  }

  /** How many chunks are streamed after `kept` once `n` were fine: up to the first that is
      not, or all of them. */
  function Stop(o: Oracle, cap: nat, kept: seq<Kept>, marked: seq<Kept>, n: nat): (k: nat)
    requires n <= |marked|
    ensures n <= k <= |marked|
    ensures forall i | n < i < k :: Judge(o, cap, TextOf(kept + marked[..i])) == Fine
    ensures n < k < |marked| ==> Judge(o, cap, TextOf(kept + marked[..k])) != Fine
    ensures k == n ==> n == |marked|
    decreases |marked| - n
  {
    if n == |marked| then n
    else if Judge(o, cap, TextOf(kept + marked[..n + 1])) != Fine then n + 1
    else Stop(o, cap, kept, marked, n + 1)
  }

  function Stream(o: Oracle, cap: nat, kept: seq<Kept>, marked: seq<Kept>): (r: Round) {
    var k := Stop(o, cap, kept, marked, 0);
    Round(marked[..k], if k == 0 then Fine else Judge(o, cap, TextOf(kept + marked[..k])))
  }

  function FirstRound(o: Oracle, cap: nat, st: State, reply: Reply): (r: Round) {
    var lost := if st.pending.Some? then Some(st.pending.value.discarded) else None;
    Stream(o, cap, st.kept, Marked(lost, reply.chunks))
  }

  /** The state once the round has been streamed: its chunks counted, and the pending rewind
      completed by the first of them. */
  function Counted(st: State, round: seq<Kept>): (r: State) {
    if round == [] || st.pending.None? then st.(tokens := st.tokens + |round|)
    else
      var p := st.pending.value;
      st.(tokens := st.tokens + |round|, pending := None,
          corrections := st.corrections + [Correction(p.context, p.discarded, round[0].chunk, p.depth)])
  }

  /** `usize::saturating_mul(2)`. */
  function Doubled(depth: nat): (d: nat) { Min(2 * depth, TWO_64 - 1) }

  /** How a doomed round is rewound. Only a text longer than any before is progress; without
      it the reach is what repeated doubling has made it. */
  function RewindOf(st: State, round: seq<Kept>): (r: Rewind) {
    var written := st.kept + round;
    var progress := Len(TextOf(written)) > st.highWater;
    var requested := if progress then 1 else st.depth;
    var survives := |written| - Min(requested, |written|);
    Rewind(written[..survives], written[survives..], requested, if progress then 0 else st.stuck + 1)
  }

  /** What a rewind leaves for the next chunk to complete. */
  function PendingOf(r: Rewind): (p: Pending) {
    Pending(Tail(TextOf(r.kept)), TextOf(r.discarded), r.requested)
  }

  function Rewound(st: State, round: seq<Kept>): (next: State) {
    var r := RewindOf(st, round);
    st.(kept := r.kept, pending := Some(PendingOf(r)), depth := Doubled(r.requested), stuck := r.stuck,
        highWater := Max(st.highWater, Len(TextOf(st.kept + round))))
  }

  /** The unguarded finish: only the length cap still stops it. */
  function Finish(o: Oracle, cap: nat, prefix: string, done: seq<string>, chunks: seq<string>): (r: seq<string>)
    decreases |chunks|
  {
    if chunks == [] then done
    else
      var done' := done + [chunks[0]];
      if TooLong(o, cap, prefix + Join(done')) then done' else Finish(o, cap, prefix, done', chunks[1..])
  }

  function Join(chunks: seq<string>): (s: string) {
    if chunks == [] then "" else Join(chunks[..|chunks| - 1]) + chunks[|chunks| - 1]
  }

  /** Giving up: one more call resumes before the doomed round and runs to its end. */
  function GiveUp(o: Oracle, cap: nat, st: State, dropped: seq<Kept>, reply: Reply): (r: Outcome) {
    var sep := if reply.chunks == [] then "" else LostSeparator(TextOf(dropped), reply.chunks[0]);
    var prefix := TextOf(st.kept) + sep;
    var tail := Finish(o, cap, prefix, [], reply.chunks);
    var overlong := tail != [] && TooLong(o, cap, prefix + Join(tail));
    if reply.failure.Some? && !overlong then Failed(reply.failure.value)
    else Finished(Run(prefix + Join(tail), st.tokens + |tail|, true, overlong, st.corrections))
  }

  /** What one round leads to: a return, the unguarded finish, or another round. */
  datatype Step = Done(outcome: Outcome) | Exhausted(st: State, dropped: seq<Kept>) | Again(st: State, rewind: Rewind)

  function StepOf(o: Oracle, cfg: Config, st: State, reply: Reply): (s: Step)
  {
    var round := FirstRound(o, cfg.cap, st, reply);
    var now := Counted(st, round.chunks);
    if round.verdict == Fine && reply.failure.Some? then Done(Failed(reply.failure.value))
    else if round.verdict != Doomed then
      Done(Finished(Run(TextOf(st.kept + round.chunks), now.tokens, false, round.verdict == Overlong, now.corrections)))
    else if now.stuck >= cfg.budget then Exhausted(now, round.chunks)
    else Again(Rewound(now, round.chunks), RewindOf(now, round.chunks))
  }

  /** The whole loop against a script of replies, one per model call. */
  function Loop(o: Oracle, cfg: Config, st: State, replies: seq<Reply>): (t: Trace)
    decreases |replies|
  {
    if replies == [] then Trace([], Suspended)
    else
      match StepOf(o, cfg, st, replies[0])
      case Done(outcome) => Trace([], outcome)
      case Exhausted(now, dropped) =>
        Trace([], if |replies| == 1 then Suspended else GiveUp(o, cfg.cap, now, dropped, replies[1]))
      case Again(next, rewind) =>
        var rest := Loop(o, cfg, next, replies[1..]);
        Trace([rewind] + rest.history, rest.outcome)
  }

  // ---- The source's loop

  /** Where the loop over a round stands: `v` judges what has been streamed, and the round ends
      here unless all of it is fine. */
  ghost predicate Streaming(o: Oracle, cap: nat, kept: seq<Kept>, marked: seq<Kept>, i: nat, v: Verdict)
    requires i <= |marked|
  {
    && v == (if i == 0 then Fine else Judge(o, cap, TextOf(kept + marked[..i])))
    && Stop(o, cap, kept, marked, 0) == if v == Fine then Stop(o, cap, kept, marked, i) else i
  }

  lemma StreamOne(o: Oracle, cap: nat, kept: seq<Kept>, marked: seq<Kept>, i: nat, v: Verdict)
    requires i < |marked| && Streaming(o, cap, kept, marked, i, Fine)
    requires v == Judge(o, cap, TextOf(kept + marked[..i + 1]))
    ensures Streaming(o, cap, kept, marked, i + 1, v)
  {
  }

  lemma StreamEnds(o: Oracle, cap: nat, kept: seq<Kept>, marked: seq<Kept>, i: nat, v: Verdict)
    requires i <= |marked| && Streaming(o, cap, kept, marked, i, v)
    requires i == |marked| || v != Fine
    ensures Stream(o, cap, kept, marked) == Round(marked[..i], v)
  {
  }

  lemma MarkedNext(lost: Option<string>, chunks: seq<string>, i: nat, sep: string)
    requires i < |chunks|
    requires sep == if i == 0 && lost.Some? then LostSeparator(lost.value, chunks[i]) else ""
    ensures Marked(lost, chunks)[..i] + [Kept(sep, chunks[i])] == Marked(lost, chunks)[..i + 1]
  {
  }

  /** The callback's judgement, over the program inside the response. */
  method Check(o: Oracle, cap: nat, text: string) returns (v: Verdict)
    ensures v == Judge(o, cap, text)
  {
    var program := o.extract(text);
    if cap > 0 && Len(program) > cap { return Overlong; }
    v := if IsDoomed(o, TrimEnd(program)) then Doomed else Fine;
  }

  method StreamRound(o: Oracle, cap: nat, kept: seq<Kept>, discarded: Option<string>, chunks: seq<string>)
    returns (r: Round)
    ensures r == Stream(o, cap, kept, Marked(discarded, chunks))
  {
    ghost var marked := Marked(discarded, chunks);
    var round: seq<Kept>, verdict := [], Fine;
    var lost := discarded;
    var i := 0;
    while i < |chunks| && verdict == Fine
      invariant 0 <= i <= |chunks| && round == marked[..i]
      invariant lost == if i == 0 then discarded else None
      invariant Streaming(o, cap, kept, marked, i, verdict)
    {
      var sep := if lost.Some? then LostSeparator(lost.value, chunks[i]) else "";
      lost := None;
      MarkedNext(discarded, chunks, i, sep);
      round := round + [Kept(sep, chunks[i])];
      verdict := Check(o, cap, TextOf(kept + round));
      StreamOne(o, cap, kept, marked, i, verdict);
      i := i + 1;
    }
    StreamEnds(o, cap, kept, marked, i, verdict);
    r := Round(round, verdict);
  }

  /** Pops up to `depth` chunks off the end, collecting their text. */
  method PopChunks(written: seq<Kept>, depth: nat) returns (kept: seq<Kept>, discarded: string)
    ensures var survives := |written| - Min(depth, |written|);
            kept == written[..survives] && discarded == TextOf(written[survives..])
  {
    kept, discarded := written, "";
    assert written[|written|..] == [];
    var n := 0;
    while n < depth && kept != []
      invariant 0 <= n <= depth && |kept| == |written| - n && kept == written[..|kept|]
      invariant discarded == TextOf(written[|kept|..])
    {
      var last := kept[|kept| - 1];
      TextOfCons(written, |kept| - 1);
      discarded := (last.sep + last.chunk) + discarded;
      kept := kept[..|kept| - 1];
      n := n + 1;
    }
  }

  lemma {:induction false} TextOfConcat(a: seq<Kept>, b: seq<Kept>)
    ensures TextOf(a + b) == TextOf(a) + TextOf(b)
    decreases |b|
  {
    if b == [] {
      assert a + b == a;
    } else {
      var last := b[|b| - 1];
      assert (a + b)[..|a + b| - 1] == a + b[..|b| - 1];
      TextOfConcat(a, b[..|b| - 1]);
      ConcatAssociate(TextOf(a), TextOf(b[..|b| - 1]), last.sep + last.chunk);
    }
  }

  lemma TextOfCons(kept: seq<Kept>, i: nat)
    requires i < |kept|
    ensures TextOf(kept[i..]) == (kept[i].sep + kept[i].chunk) + TextOf(kept[i + 1..])
  {
    assert kept[i..] == [kept[i]] + kept[i + 1..];
    TextOfConcat([kept[i]], kept[i + 1..]);
    assert TextOf([kept[i]]) == kept[i].sep + kept[i].chunk;
  }

  method FinishUnguarded(o: Oracle, cap: nat, prefix: string, dropped: seq<Kept>, chunks: seq<string>)
    returns (separator: string, tail: seq<string>, overlong: bool)
    ensures separator == (if chunks == [] then "" else LostSeparator(TextOf(dropped), chunks[0]))
    ensures tail == Finish(o, cap, prefix + separator, [], chunks)
    ensures overlong == (tail != [] && TooLong(o, cap, prefix + separator + Join(tail)))
  {
    separator, tail, overlong := "", [], false;
    if chunks != [] {
      separator := LostSeparator(TextOf(dropped), chunks[0]);
    }
    ghost var whole := Finish(o, cap, prefix + separator, [], chunks);
    var i := 0;
    while i < |chunks| && !overlong
      invariant 0 <= i <= |chunks|
      invariant overlong ==> tail == whole
      invariant !overlong ==> whole == Finish(o, cap, prefix + separator, tail, chunks[i..])
      invariant overlong == (tail != [] && TooLong(o, cap, prefix + separator + Join(tail)))
    {
      assert chunks[i..][1..] == chunks[i + 1..];
      tail := tail + [chunks[i]];
      overlong := TooLong(o, cap, prefix + separator + Join(tail));
      i := i + 1;
    }
  }

  method OneRound(o: Oracle, cfg: Config, before: State, reply: Reply) returns (step: Step)
    ensures step == StepOf(o, cfg, before, reply)
  {
    var discarded := if before.pending.Some? then Some(before.pending.value.discarded) else None;
    var round := StreamRound(o, cfg.cap, before.kept, discarded, reply.chunks);
    var st := CountRound(before, round.chunks);
    if round.verdict == Fine && reply.failure.Some? {
      return Done(Failed(reply.failure.value));
    }
    if round.verdict != Doomed {
      var overlong := round.verdict == Overlong;
      return Done(Finished(Run(TextOf(st.kept + round.chunks), st.tokens, false, overlong, st.corrections)));
    }
    if st.stuck >= cfg.budget {
      return Exhausted(st, round.chunks);
    }
    var next, rewind := RewindRound(st, round.chunks);
    step := Again(next, rewind);
  }

  method CountRound(before: State, round: seq<Kept>) returns (st: State)
    ensures st == Counted(before, round)
  {
    st := before.(tokens := before.tokens + |round|);
    if st.pending.Some? && round != [] {
      var p := st.pending.value;
      var correction := Correction(p.context, p.discarded, round[0].chunk, p.depth);
      st := st.(corrections := st.corrections + [correction], pending := None);
    }
  }

  /** The rewind and the state it leaves, from the pieces the loop has at hand. */
  lemma RewindParts(now: State, round: seq<Kept>, written: seq<Kept>, reached: nat, r: Rewind)
    requires written == now.kept + round && reached == Len(TextOf(written))
    requires r.requested == if reached > now.highWater then 1 else now.depth
    requires r.stuck == if reached > now.highWater then 0 else now.stuck + 1
    requires var survives := |written| - Min(r.requested, |written|);
             r.kept == written[..survives] && r.discarded == written[survives..]
    ensures r == RewindOf(now, round)
    ensures Rewound(now, round) == now.(kept := r.kept, pending := Some(PendingOf(r)), depth := Doubled(r.requested),
                                        stuck := r.stuck, highWater := Max(now.highWater, reached))
  {
  }

  method RewindRound(now: State, round: seq<Kept>) returns (st: State, rewind: Rewind)
    ensures st == Rewound(now, round) && rewind == RewindOf(now, round)
  {
    st := now;
    var written := st.kept + round;
    var reached := Len(TextOf(written));
    if reached > st.highWater {
      st := st.(highWater := reached, depth := 1, stuck := 0);
    } else {
      st := st.(stuck := st.stuck + 1);
    }
    var requested := st.depth;
    var kept, discarded := PopChunks(written, requested);
    st := st.(kept := kept, depth := Doubled(requested),
              pending := Some(Pending(Tail(TextOf(kept)), discarded, requested)));
    rewind := Rewind(kept, written[|kept|..], requested, st.stuck);
    RewindParts(now, round, written, reached, rewind);
  }

  method RunOnceCapped(o: Oracle, cfg: Config, replies: seq<Reply>) returns (out: Outcome)
    ensures out == Loop(o, cfg, INITIAL, replies).outcome
  {
    var st := INITIAL;
    var calls := 0;
    while calls < |replies|
      invariant 0 <= calls <= |replies|
      invariant Loop(o, cfg, st, replies[calls..]).outcome == Loop(o, cfg, INITIAL, replies).outcome
    {
      assert replies[calls..][1..] == replies[calls + 1..];
      var step := OneRound(o, cfg, st, replies[calls]);
      match step
      case Done(outcome) => return outcome;
      case Exhausted(now, dropped) =>
        if calls + 1 == |replies| { return Suspended; }
        var last := replies[calls + 1];
        var prefix := TextOf(now.kept);
        var separator, tail, overlong := FinishUnguarded(o, cfg.cap, prefix, dropped, last.chunks);
        if last.failure.Some? && !overlong { return Failed(last.failure.value); }
        return Finished(Run(prefix + separator + Join(tail), now.tokens + |tail|, true, overlong, now.corrections));
      case Again(next, _) =>
        st := next;
        calls := calls + 1;
    }
    out := Suspended;
  }
}
