/** What a walk is made of: every step the sampler's pick at its own length and depth, every token
    written once and apart, and why it ends where it does (babble/src/lib.rs). */
module BabbleTrace {
  import opened Words
  import opened Utf8
  import opened BabbleTables
  import opened BabbleSampler
  import opened BabbleWalk
  import opened BabbleProofs

  // ---- Depth

  /** What a step adds to the nesting: an obligation one level, a closer one less. */
  function Weighs(s: Step): (n: int) {
    if s.kind in {18, 19, 21, 25, 49, 51, 53} then 1 else if s.kind in {50, 52, 54} then -1 else 0
  }

  /** Obligations less closers. */
  function Balance(steps: seq<Step>): (n: int) {
    if steps == [] then 0 else Balance(steps[..|steps| - 1]) + Weighs(steps[|steps| - 1])
  }

  /** The depth after some steps is the largest balance of any run of them up to the last: closers
      that close nothing do not count. */
  ghost predicate IsDepth(steps: seq<Step>, d: nat) {
    && (forall j | 0 <= j <= |steps| :: Balance(steps[j..]) <= d)
    && exists j | 0 <= j <= |steps| :: Balance(steps[j..]) == d
  }

  lemma BalanceSnoc(steps: seq<Step>, s: Step, j: nat)
    requires j <= |steps|
    ensures Balance((steps + [s])[j..]) == Balance(steps[j..]) + Weighs(s)
  {
    assert (steps + [s])[j..] == steps[j..] + [s];
    assert (steps[j..] + [s])[..|steps[j..]|] == steps[j..];
  }

  lemma DeepenIsDepth(steps: seq<Step>, d: nat, s: Step)
    requires IsDepth(steps, d)
    ensures IsDepth(steps + [s], Deepen(d, s.kind))
  {
    var steps', d' := steps + [s], Deepen(d, s.kind);
    ClassesAre(s.kind);
    forall j | 0 <= j <= |steps'|
      ensures Balance(steps'[j..]) <= d'
    {
      if j <= |steps| { BalanceSnoc(steps, s, j); } else { assert steps'[j..] == []; }
    }
    var j :| 0 <= j <= |steps| && Balance(steps[j..]) == d;
    BalanceSnoc(steps, s, j);
    assert steps'[|steps'|..] == [];
    var i := if d + Weighs(s) < 0 then |steps'| else j;
    assert Balance(steps'[i..]) == d';
  }

  // ---- Picks

  /** The step at index `i`, at depth `d`, is what the sampler picks there with the numbers from
      `before` on, and `next` is the source with its token written, from the number drawn for it if
      it is drawn from a stock. The numbers used end at `after`. */
  ghost predicate Picks(
      g: Grammar, t: Tables, rand: nat -> nat, step: Step, next: Text, i: nat, d: nat, before: nat, after: nat)
    requires t.softness > 0
  {
    var picked := PickFrom(Admitted(g, step.before), Candidates(t, i, d), rand, before);
    && picked.kind == Some(step.kind)
    && if step.kind == 59 then next == step.before && after == picked.drawn
       else if step.kind < 6 then
         Spaced(step.before, g.lexeme(step.kind, rand(picked.drawn)), next) && after == picked.drawn + 1
       else Spaced(step.before, g.lexeme(step.kind, 0), next) && after == picked.drawn
  }

  ghost predicate PicksAt(g: Grammar, t: Tables, rand: nat -> nat, w: Walk, i: nat, before: nat, after: nat)
    requires t.softness > 0 && i < |w.steps|
  {
    exists d :: IsDepth(w.steps[..i], d) && Picks(g, t, rand, w.steps[i], Boundary(w, i + 1), i, d, before, after)
  }

  /** Every step of `w` is the sampler's pick, the numbers used one after another. */
  ghost predicate Sampled(g: Grammar, t: Tables, rand: nat -> nat, prefix: Text, w: Walk, draws: seq<nat>)
    requires t.softness > 0
  {
    && |draws| == |w.steps| + 1 && draws[0] == 0 && Boundary(w, 0) == prefix
    && forall i | 0 <= i < |w.steps| :: PicksAt(g, t, rand, w, i, draws[i], draws[i + 1])
  }

  lemma PicksAtGrows(
      g: Grammar, t: Tables, rand: nat -> nat, w: Walk, w': Walk, i: nat, before: nat, after: nat)
    requires t.softness > 0 && i < |w.steps| && PicksAt(g, t, rand, w, i, before, after)
    requires |w'.steps| == |w.steps| + 1 && w'.steps[..|w.steps|] == w.steps
    requires w'.steps[|w.steps|].before == w.source
    ensures PicksAt(g, t, rand, w', i, before, after)
  {
    assert w'.steps[i] == w.steps[i] && w'.steps[..i] == w.steps[..i];
    assert Boundary(w', i + 1) == Boundary(w, i + 1);
  }

  lemma SampledGrows(
      g: Grammar, t: Tables, rand: nat -> nat, prefix: Text, w: Walk, draws: seq<nat>, d: nat, c: TokenClass,
      next: Text, after: nat)
    requires t.softness > 0 && Sampled(g, t, rand, prefix, w, draws) && IsDepth(w.steps, d)
    requires Picks(g, t, rand, Step(w.source, c), next, |w.steps|, d, draws[|w.steps|], after)
    ensures Sampled(g, t, rand, prefix, Walk(next, w.steps + [Step(w.source, c)]), draws + [after])
  {
    var n, w', draws' := |w.steps|, Walk(next, w.steps + [Step(w.source, c)]), draws + [after];
    assert w'.steps[..n] == w.steps;
    forall i | 0 <= i < |w'.steps|
      ensures PicksAt(g, t, rand, w', i, draws'[i], draws'[i + 1])
    {
      if i < n {
        PicksAtGrows(g, t, rand, w, w', i, draws[i], draws[i + 1]);
      }
    }
  }

  // ---- Turns

  /** The source is complete, as the oracle sees it. */
  predicate Whole(g: Grammar, source: Text) { g.admits(source, EOF) }

  /** The last boundary before the `n`th where the program was complete, or the start. */
  ghost predicate LastWhole(g: Grammar, w: Walk, n: nat, i: nat)
    requires n <= |w.steps| + 1
  {
    && i <= |w.steps| && (i == 0 || (i < n && Whole(g, Boundary(w, i))))
    && forall j | i < j < n :: !Whole(g, Boundary(w, j))
  }

  /** What holds at the top of turn `n`. */
  ghost predicate OnPath(
      g: Grammar, t: Tables, prefix: Text, stop: StopRule, rand: nat -> nat, st: State, draws: seq<nat>)
    requires t.softness > 0
  {
    && Sampled(g, t, rand, prefix, st.walk, draws) && draws[|st.walk.steps|] == st.drawn
    && IsDepth(st.walk.steps, st.depth)
    && (forall i | 0 <= i < |st.walk.steps| :: st.walk.steps[i].kind != EOF)
    && (stop == WholeProgram ==>
          && Unwound(g, t, st.walk.steps)
          && exists i :: Rests(g, st.walk, |st.walk.steps|, i, st.whole))
  }

  /** `whole` is the walk cut at its last complete boundary before the `n`th. */
  ghost predicate Rests(g: Grammar, w: Walk, n: nat, i: nat, whole: Walk)
    requires n <= |w.steps| + 1
  {
    LastWhole(g, w, n, i) && whole == Walk(Boundary(w, i), w.steps[..i])
  }

  lemma EmittedPicks(
      g: Grammar, t: Tables, rand: nat -> nat, st: State, now: State, n: nat, c: TokenClass, next: State)
    requires t.softness > 0 && now.walk == st.walk && now.depth == st.depth && next == Emitted(g, rand, now, c)
    requires Picked(Some(c), now.drawn) ==
             PickFrom(Admitted(g, st.walk.source), Candidates(t, n, st.depth), rand, st.drawn)
    ensures Picks(g, t, rand, Step(st.walk.source, c), next.walk.source, n, st.depth, st.drawn, next.drawn)
    ensures next.walk.steps == st.walk.steps + [Step(st.walk.source, c)] && next.depth == Deepen(st.depth, c)
    ensures next.whole == now.whole
  {
    if c != EOF {
      AppendIsSpaced(st.walk.source, g.lexeme(c, if HasPayload(c) then rand(now.drawn) else 0));
    }
  }

  /** Looking at the source before a pick brings the last complete point up to it. */
  lemma NotedRests(g: Grammar, stop: StopRule, st: State, i: nat) returns (i': nat)
    requires stop == WholeProgram && Rests(g, st.walk, |st.walk.steps|, i, st.whole)
    ensures Rests(g, st.walk, |st.walk.steps| + 1, i', Noted(g, stop, st))
  {
    var n := |st.walk.steps|;
    i' := if Whole(g, st.walk.source) then n else i;
    assert st.walk.steps[..n] == st.walk.steps;
    assert Boundary(st.walk, n) == st.walk.source;
  }

  lemma RestsGrows(g: Grammar, w: Walk, w': Walk, i: nat, whole: Walk)
    requires Rests(g, w, |w.steps| + 1, i, whole)
    requires |w'.steps| == |w.steps| + 1 && w'.steps[..|w.steps|] == w.steps && w'.steps[|w.steps|].before == w.source
    ensures Rests(g, w', |w'.steps|, i, whole)
  {
    assert forall j | 0 <= j <= |w.steps| :: Boundary(w', j) == Boundary(w, j);
    assert w'.steps[..i] == w.steps[..i];
  }

  /** A turn that picks anything adds its pick to the path. */
  lemma TurnPicks(
      g: Grammar, t: Tables, prefix: Text, stop: StopRule, rand: nat -> nat, st: State, draws: seq<nat>, next: State)
    returns (draws': seq<nat>)
    requires t.softness > 0 && OnPath(g, t, prefix, stop, rand, st, draws)
    requires var n := |st.walk.steps|;
             var turn := TurnOf(g, t, stop, rand, n, st);
             turn == On(next) || (turn == Stuck(next) && next.walk != st.walk)
    ensures Sampled(g, t, rand, prefix, next.walk, draws') && draws'[|next.walk.steps|] == next.drawn
    ensures |next.walk.steps| == |st.walk.steps| + 1 && next.walk.steps[..|st.walk.steps|] == st.walk.steps
    ensures next.walk.steps[|st.walk.steps|].before == st.walk.source
    ensures IsDepth(next.walk.steps, next.depth) && next.whole == Noted(g, stop, st)
    ensures next.walk.steps[|st.walk.steps|].kind == EOF <==> TurnOf(g, t, stop, rand, |st.walk.steps|, st).Stuck?
  {
    var n := |st.walk.steps|;
    var picked := PickFrom(Admitted(g, st.walk.source), Candidates(t, n, st.depth), rand, st.drawn);
    var c := picked.kind.value;
    var now := st.(whole := Noted(g, stop, st), drawn := picked.drawn);
    EmittedPicks(g, t, rand, st, now, n, c, next);
    SampledGrows(g, t, rand, prefix, st.walk, draws, st.depth, c, next.walk.source, next.drawn);
    DeepenIsDepth(st.walk.steps, st.depth, Step(st.walk.source, c));
    draws' := draws + [next.drawn];
  }

  lemma PathGoesOn(
      g: Grammar, t: Tables, prefix: Text, stop: StopRule, rand: nat -> nat, st: State, draws: seq<nat>, next: State)
    returns (draws': seq<nat>)
    requires t.softness > 0 && OnPath(g, t, prefix, stop, rand, st, draws)
    requires TurnOf(g, t, stop, rand, |st.walk.steps|, st) == On(next)
    ensures OnPath(g, t, prefix, stop, rand, next, draws') && |next.walk.steps| == |st.walk.steps| + 1
  {
    draws' := TurnPicks(g, t, prefix, stop, rand, st, draws, next);
    var n := |st.walk.steps|;
    forall i | 0 <= i < |next.walk.steps|
      ensures next.walk.steps[i].kind != EOF
    {
      assert i < n ==> next.walk.steps[i] == st.walk.steps[i];
    }
    if stop == WholeProgram {
      var i :| Rests(g, st.walk, n, i, st.whole);
      var i' := NotedRests(g, stop, st, i);
      RestsGrows(g, st.walk, next.walk, i', next.whole);
      StaysUnwound(g, t, st.walk.steps, next.walk.steps);
    }
  }

  lemma StaysUnwound(g: Grammar, t: Tables, steps: seq<Step>, steps': seq<Step>)
    requires Unwound(g, t, steps) && |steps'| == |steps| + 1 && steps'[..|steps|] == steps
    requires |steps| >= t.windDown ==> !Whole(g, steps'[|steps|].before)
    ensures Unwound(g, t, steps')
  {
    forall i | t.windDown <= i < |steps'|
      ensures !g.admits(steps'[i].before, EOF)
    {
      assert i < |steps| ==> steps'[i] == steps[i];
    }
  }

  // ---- Where nothing can be picked

  /** No class that the oracle admits carries weight. */
  ghost predicate NothingToPick(g: Grammar, t: Tables, w: Walk)
    requires t.softness > 0
  {
    exists d :: IsDepth(w.steps, d) && NoneWeighs(g, t, w.source, |w.steps|, d)
  }

  ghost predicate NoneWeighs(g: Grammar, t: Tables, source: Text, n: nat, d: nat)
    requires t.softness > 0
  {
    forall c: TokenClass | g.admits(source, c) :: Weight(t, c, n, d) == 0
  }

  lemma {:induction false} NoneLegal(admits: TokenClass -> bool, cs: seq<Candidate>, k: Candidate)
    requires Sum(Legal(admits), cs) == 0 && k in cs && admits(k.kind)
    ensures k.weight == 0
  {
    var n := |cs| - 1;
    if cs[n] != k {
      assert cs == cs[..n] + [cs[n]];
      NoneLegal(admits, cs[..n], k);
    }
  }

  lemma UnpickedWeighsNothing(g: Grammar, t: Tables, rand: nat -> nat, source: Text, n: nat, d: nat, drawn: nat)
    requires t.softness > 0 && PickFrom(Admitted(g, source), Candidates(t, n, d), rand, drawn).kind == None
    ensures NoneWeighs(g, t, source, n, d)
  {
    var admits, cs := Admitted(g, source), Candidates(t, n, d);
    PickIsLegal(admits, cs, rand, drawn);
    DistributionLists({}, t, n, d);
    forall c: TokenClass | g.admits(source, c)
      ensures Weight(t, c, n, d) == 0
    {
      UnlegalWeighsNothing(admits, t, cs, n, d, c);
    }
  }

  lemma UnlegalWeighsNothing(
      admits: TokenClass -> bool, t: Tables, cs: seq<Candidate>, n: nat, d: nat, c: TokenClass)
    requires t.softness > 0 && ListsWeights(cs, c => true, t, n, d, 60) && Sum(Legal(admits), cs) == 0 && admits(c)
    ensures Weight(t, c, n, d) == 0
  {
    var k := Candidate(c, Weight(t, c, n, d));
    if k in cs { NoneLegal(admits, cs, k); }
  }

  // ---- Fragments

  ghost predicate NoEnd(steps: seq<Step>) { forall i | 0 <= i < |steps| :: steps[i].kind != 59 }

  /** A walk under a token budget is the sampler's picks, and it stops when the budget or the 200
      tokens are used, when the end is picked, or when there is nothing to pick. */
  ghost predicate FragmentTrace(
      g: Grammar, t: Tables, prefix: Text, rand: nat -> nat, k: nat, w: Walk, draws: seq<nat>)
    requires t.softness > 0
  {
    && Sampled(g, t, rand, prefix, w, draws) && |w.steps| <= Min(k, 200)
    && if NoEnd(w.steps) then |w.steps| == Min(k, 200) || NothingToPick(g, t, w)
       else NoEnd(w.steps[..|w.steps| - 1])
  }

  lemma StuckEnds(
      g: Grammar, t: Tables, prefix: Text, stop: StopRule, rand: nat -> nat, st: State, draws: seq<nat>, next: State)
    returns (draws': seq<nat>)
    requires t.softness > 0 && OnPath(g, t, prefix, stop, rand, st, draws)
    requires TurnOf(g, t, stop, rand, |st.walk.steps|, st) == Stuck(next)
    ensures Sampled(g, t, rand, prefix, next.walk, draws') && next.whole == Noted(g, stop, st)
    ensures if next.walk == st.walk then NothingToPick(g, t, next.walk)
            else
              && |next.walk.steps| == |st.walk.steps| + 1 && next.walk.steps[..|st.walk.steps|] == st.walk.steps
              && next.walk.steps[|st.walk.steps|] == Step(st.walk.source, EOF) && Whole(g, st.walk.source)
  {
    var n := |st.walk.steps|;
    var picked := PickFrom(Admitted(g, st.walk.source), Candidates(t, n, st.depth), rand, st.drawn);
    if picked.kind.None? {
      draws' := draws;
      UnpickedWeighsNothing(g, t, rand, st.walk.source, n, st.depth, st.drawn);
    } else {
      assert |next.walk.steps| == n + 1;
      draws' := TurnPicks(g, t, prefix, stop, rand, st, draws, next);
      PickAdmitted(g, t, rand, n, st, EOF);
    }
  }

  /** Where a walk under a budget goes from here: on, or to rest. */
  lemma GoesOrStops(g: Grammar, t: Tables, rand: nat -> nat, k: nat, n: nat, st: State, w: Walk)
    returns (goes: bool, next: State)
    requires t.softness > 0 && Nears(g, t, AfterTokens(k), rand, n, st, true, w)
    ensures n <= Min(k, 200)
    ensures goes ==> n < Min(k, 200) && TurnOf(g, t, AfterTokens(k), rand, n, st) == On(next)
    ensures goes ==> Nears(g, t, AfterTokens(k), rand, n + 1, next, true, w)
    ensures !goes ==>
              || (n == Min(k, 200) && w == st.walk)
              || (n < Min(k, 200) && TurnOf(g, t, AfterTokens(k), rand, n, st) == Stuck(next) && w == next.walk)
  {
    goes, next := false, st;
    if n < Min(k, 200) {
      var turn := TurnOf(g, t, AfterTokens(k), rand, n, st);
      TurnNears(g, t, AfterTokens(k), rand, n, st, turn, w);
      goes, next := turn.On?, turn.st;
    }
  }

  lemma BudgetFragment(
      g: Grammar, t: Tables, prefix: Text, rand: nat -> nat, k: nat, st: State, draws: seq<nat>)
    requires t.softness > 0 && OnPath(g, t, prefix, AfterTokens(k), rand, st, draws)
    requires |st.walk.steps| == Min(k, 200)
    ensures FragmentTrace(g, t, prefix, rand, k, st.walk, draws)
  {
  }

  lemma {:induction false} WalkOnTraces(
      g: Grammar, t: Tables, prefix: Text, rand: nat -> nat, k: nat, n: nat, st: State, draws: seq<nat>, w: Walk)
    returns (draws': seq<nat>)
    requires t.softness > 0 && n == |st.walk.steps| <= Min(k, 200)
    requires OnPath(g, t, prefix, AfterTokens(k), rand, st, draws)
    requires Nears(g, t, AfterTokens(k), rand, n, st, true, w)
    ensures FragmentTrace(g, t, prefix, rand, k, w, draws')
    decreases 200 - n
  {
    var goes, next := GoesOrStops(g, t, rand, k, n, st, w);
    if goes {
      var more := PathGoesOn(g, t, prefix, AfterTokens(k), rand, st, draws, next);
      draws' := WalkOnTraces(g, t, prefix, rand, k, n + 1, next, more, w);
    } else if n == Min(k, 200) {
      draws' := draws;
      BudgetFragment(g, t, prefix, rand, k, st, draws);
    } else {
      draws' := StuckFragment(g, t, prefix, rand, k, st, draws, next);
    }
  }

  lemma StuckFragment(
      g: Grammar, t: Tables, prefix: Text, rand: nat -> nat, k: nat, st: State, draws: seq<nat>, next: State)
    returns (draws': seq<nat>)
    requires t.softness > 0 && OnPath(g, t, prefix, AfterTokens(k), rand, st, draws) && |st.walk.steps| < Min(k, 200)
    requires TurnOf(g, t, AfterTokens(k), rand, |st.walk.steps|, st) == Stuck(next)
    ensures FragmentTrace(g, t, prefix, rand, k, next.walk, draws')
  {
    draws' := StuckEnds(g, t, prefix, AfterTokens(k), rand, st, draws, next);
    if next.walk != st.walk {
      assert next.walk.steps[|st.walk.steps|].kind == 59;
    }
  }

  lemma StartsOnPath(g: Grammar, t: Tables, prefix: Text, stop: StopRule, rand: nat -> nat, st: State)
    requires t.softness > 0 && st == State(Walk(prefix, []), 0, 0, Walk(prefix, []))
    ensures OnPath(g, t, prefix, stop, rand, st, [0])
  {
    assert Balance(st.walk.steps[0..]) == 0;
    assert Rests(g, st.walk, 0, 0, st.whole);
  }

  /** For every oracle, policy, prefix, budget and stream of numbers. */
  lemma FragmentsAreSampled(g: Grammar, t: Tables, prefix: Text, rand: nat -> nat, k: nat) returns (draws: seq<nat>)
    requires t.softness > 0
    ensures FragmentTrace(g, t, prefix, rand, k, WalkFrom(g, prefix, rand, t, AfterTokens(k)), draws)
  {
    var st := State(Walk(prefix, []), 0, 0, Walk(prefix, []));
    StartsOnPath(g, t, prefix, AfterTokens(k), rand, st);
    draws := WalkOnTraces(g, t, prefix, rand, k, 0, st, [0], WalkFrom(g, prefix, rand, t, AfterTokens(k)));
  }

  // ---- Whole programs

  /** A program is the sampler's picks `p`, cut at a boundary and ended there. It is cut where the
      walk stood if the program was complete and the wind-down over; before the end if that was
      picked; and else, with 200 tokens used or nothing to pick, at the last boundary where it was
      seen to be complete. */
  ghost predicate ProgramTrace(
      g: Grammar, t: Tables, prefix: Text, rand: nat -> nat, w: Walk, p: Walk, draws: seq<nat>, i: nat)
    requires t.softness > 0
  {
    var n := |p.steps|;
    && Sampled(g, t, rand, prefix, p, draws) && n <= 200 && i <= n
    && w == Walk(Boundary(p, i), p.steps[..i] + [Step(Boundary(p, i), EOF)])
    && if NoEnd(p.steps) then
         && Unwound(g, t, p.steps)
         && (|| (i == n >= t.windDown && Whole(g, p.source))
             || (n == 200 && LastWhole(g, p, n, i))
             || (NothingToPick(g, t, p) && LastWhole(g, p, n + 1, i)))
       else i == n - 1 && NoEnd(p.steps[..i]) && Unwound(g, t, p.steps[..i]) && Whole(g, Boundary(p, i))
  }

  lemma CapTraces(g: Grammar, t: Tables, prefix: Text, rand: nat -> nat, st: State, draws: seq<nat>) returns (i: nat)
    requires t.softness > 0 && OnPath(g, t, prefix, WholeProgram, rand, st, draws) && |st.walk.steps| == 200
    ensures ProgramTrace(g, t, prefix, rand, Ended(st.whole), st.walk, draws, i)
  {
    i :| Rests(g, st.walk, |st.walk.steps|, i, st.whole);
  }

  lemma OverTraces(g: Grammar, t: Tables, prefix: Text, rand: nat -> nat, st: State, draws: seq<nat>)
    requires t.softness > 0 && OnPath(g, t, prefix, WholeProgram, rand, st, draws) && |st.walk.steps| <= 200
    requires Whole(g, st.walk.source) && |st.walk.steps| >= t.windDown
    ensures ProgramTrace(g, t, prefix, rand, Ended(st.walk), st.walk, draws, |st.walk.steps|)
  {
    assert st.walk.steps[..|st.walk.steps|] == st.walk.steps;
  }

  lemma StuckTraces(
      g: Grammar, t: Tables, prefix: Text, rand: nat -> nat, st: State, draws: seq<nat>, next: State)
    returns (draws': seq<nat>, i: nat)
    requires t.softness > 0 && OnPath(g, t, prefix, WholeProgram, rand, st, draws) && |st.walk.steps| < 200
    requires TurnOf(g, t, WholeProgram, rand, |st.walk.steps|, st) == Stuck(next)
    ensures ProgramTrace(g, t, prefix, rand, Ended(next.whole), next.walk, draws', i)
  {
    draws' := StuckEnds(g, t, prefix, WholeProgram, rand, st, draws, next);
    if next.walk == st.walk {
      i :| Rests(g, st.walk, |st.walk.steps|, i, st.whole);
      i := NotedRests(g, WholeProgram, st, i);
    } else {
      i := |st.walk.steps|;
      assert next.walk.steps[..i] == st.walk.steps && Boundary(next.walk, i) == st.walk.source;
      assert next.walk.steps[i].kind == 59;
    }
  }

  lemma {:induction false} ProgramTraces(
      g: Grammar, t: Tables, prefix: Text, rand: nat -> nat, n: nat, st: State, draws: seq<nat>, w: Walk)
    returns (p: Walk, draws': seq<nat>, i: nat)
    requires t.softness > 0 && n == |st.walk.steps| <= 200
    requires OnPath(g, t, prefix, WholeProgram, rand, st, draws) && w == WalkOn(g, t, WholeProgram, rand, n, st)
    ensures ProgramTrace(g, t, prefix, rand, w, p, draws', i)
    decreases 200 - n
  {
    p, draws', i := st.walk, draws, n;
    if n == 200 {
      i := CapTraces(g, t, prefix, rand, st, draws);
    } else {
      var turn := TurnOf(g, t, WholeProgram, rand, n, st);
      TurnNears(g, t, WholeProgram, rand, n, st, turn, w);
      if turn.On? {
        var more := PathGoesOn(g, t, prefix, WholeProgram, rand, st, draws, turn.st);
        p, draws', i := ProgramTraces(g, t, prefix, rand, n + 1, turn.st, more, w);
      } else if turn.Stuck? {
        p := turn.st.walk;
        draws', i := StuckTraces(g, t, prefix, rand, st, draws, turn.st);
      } else {
        OverTraces(g, t, prefix, rand, st, draws);
      }
    }
  }

  /** For every oracle, policy, prefix and stream of numbers. */
  lemma ProgramsAreSampled(g: Grammar, t: Tables, prefix: Text, rand: nat -> nat)
    returns (p: Walk, draws: seq<nat>, i: nat)
    requires t.softness > 0
    ensures ProgramTrace(g, t, prefix, rand, WalkFrom(g, prefix, rand, t, WholeProgram), p, draws, i)
  {
    var st := State(Walk(prefix, []), 0, 0, Walk(prefix, []));
    StartsOnPath(g, t, prefix, WholeProgram, rand, st);
    p, draws, i :=
      ProgramTraces(g, t, prefix, rand, 0, st, [0], WalkFrom(g, prefix, rand, t, WholeProgram));
  }

  // ---- Spelling

  /** Lexemes one after another, each behind one space, but for those with nothing before them. */
  function Tokens(first: bool, lexemes: seq<bytes>): (b: bytes) {
    if lexemes == [] then []
    else (if first then lexemes[0] else [0x20] + lexemes[0]) + Tokens(first && lexemes[0] == [], lexemes[1..])
  }

  ghost predicate Lexemes(g: Grammar, w: Walk, lexemes: seq<bytes>) {
    |lexemes| == |w.steps| && forall i | 0 <= i < |lexemes| :: LexemeOf(g, w.steps[i].kind, lexemes[i])
  }

  ghost predicate LexemeOf(g: Grammar, c: TokenClass, lexeme: bytes) {
    exists number :: lexeme == g.lexeme(c, number)
  }

  lemma {:induction false} TokensSnoc(first: bool, lexemes: seq<bytes>, lexeme: bytes)
    ensures Tokens(first, lexemes + [lexeme]) ==
            Tokens(first, lexemes) + if first && Tokens(first, lexemes) == [] then lexeme else [0x20] + lexeme
    decreases |lexemes|
  {
    if lexemes == [] {
      assert lexemes + [lexeme] == [lexeme] && [lexeme][1..] == [];
      assert Tokens(first && lexeme == [], []) == [];
    } else {
      var head := if first then lexemes[0] else [0x20] + lexemes[0];
      var still := first && lexemes[0] == [];
      var tail := Tokens(still, lexemes[1..]);
      var last := if still && tail == [] then lexeme else [0x20] + lexeme;
      assert (lexemes + [lexeme])[1..] == lexemes[1..] + [lexeme];
      TokensSnoc(still, lexemes[1..], lexeme);
      ConcatAssociate(head, tail, last);
    }
  }

  lemma SpacedIsTokens(prefix: bytes, lexemes: seq<bytes>, source: bytes, lexeme: bytes, after: bytes)
    requires source == prefix + Tokens(prefix == [], lexemes) && Spaced(source, lexeme, after)
    ensures after == prefix + Tokens(prefix == [], lexemes + [lexeme])
  {
    var tokens := Tokens(prefix == [], lexemes);
    TokensSnoc(prefix == [], lexemes, lexeme);
    if source == [] {
      assert prefix == [] && tokens == [];
    } else {
      assert after == source + ([0x20] + lexeme);
      ConcatAssociate(prefix, tokens, [0x20] + lexeme);
    }
  }

  /** Over a whole walk: the source is the prefix and then the lexemes of the steps, in order. */
  lemma {:induction false} WalkSpells(g: Grammar, prefix: Text, w: Walk) returns (lexemes: seq<bytes>)
    requires Open(g, prefix, w)
    ensures Lexemes(g, w, lexemes) && w.source == prefix + Tokens(prefix == [], lexemes)
    decreases |w.steps|
  {
    lexemes := [];
    if w.steps == [] {
      assert prefix + [] == prefix;
    } else {
      var n := |w.steps| - 1;
      OpenCut(g, prefix, w, n);
      lexemes := WalkSpells(g, prefix, Walk(Boundary(w, n), w.steps[..n]));
      var lexeme := LastLexeme(g, prefix, w, n);
      SpacedIsTokens(prefix, lexemes, w.steps[n].before, lexeme, w.source);
      LexemesSnoc(g, w, n, lexemes, lexeme);
      lexemes := lexemes + [lexeme];
    }
  }

  lemma LastLexeme(g: Grammar, prefix: Text, w: Walk, n: nat) returns (lexeme: bytes)
    requires Open(g, prefix, w) && |w.steps| == n + 1
    ensures LexemeOf(g, w.steps[n].kind, lexeme) && Spaced(w.steps[n].before, lexeme, w.source)
  {
    assert LegalStep(g, w, n);
    var number :| Spaced(w.steps[n].before, g.lexeme(w.steps[n].kind, number), Boundary(w, n + 1));
    lexeme := g.lexeme(w.steps[n].kind, number);
  }

  lemma LexemesSnoc(g: Grammar, w: Walk, n: nat, lexemes: seq<bytes>, lexeme: bytes)
    requires |w.steps| == n + 1 && LexemeOf(g, w.steps[n].kind, lexeme)
    requires Lexemes(g, Walk(Boundary(w, n), w.steps[..n]), lexemes)
    ensures Lexemes(g, w, lexemes + [lexeme])
  {
    forall i | 0 <= i <= n
      ensures LexemeOf(g, w.steps[i].kind, (lexemes + [lexeme])[i])
    {
      assert i < n ==> w.steps[..n][i] == w.steps[i];
    }
  }
}
