/** The sampler in 32-bit words: on which walks no number it computes leaves them
    (babble/src/lib.rs). */
module BabbleWords {
  import opened Words
  import opened Utf8
  import opened BabbleTables
  import opened BabbleSampler
  import opened BabbleDistribution
  import opened BabbleWalk

  /** Every number a weight is computed from fits, down to the weight itself. */
  ghost predicate WeightInRange(base: nat, p: nat) {
    base * WEIGHT_SCALE < TWO_32 && base * WEIGHT_SCALE * p < TWO_32 && p * p < TWO_32 && p * p * p < TWO_32
  }

  /** Every number a pick computes before it draws fits in 32 bits. */
  ghost predicate InRange(t: Tables, emitted: nat, depth: nat)
    requires t.softness > 0
  {
    && emitted + depth * t.depthWeight < TWO_32
    && 1 + (emitted + depth * t.depthWeight) / t.softness < TWO_32
    && WrappedPressure(t, emitted, depth) == Pressure(t, emitted, depth)
    && (forall c: TokenClass :: WeightInRange(t.base[c], Pressure(t, emitted, depth)))
    && Total(Candidates(t, emitted, depth)) < TWO_32
  }

  lemma WeightFits(base: nat, p: nat)
    requires base < 0x1_0000 && 0 < p <= PRESSURE_CAP
    ensures WeightInRange(base, p)
  {
    SquareGrows(p, PRESSURE_CAP);
    MulGrows(p, PRESSURE_CAP, base * WEIGHT_SCALE);
  }

  lemma PickFits(t: Tables, emitted: nat, depth: nat)
    requires t.softness > 0 && emitted + depth * t.depthWeight < TWO_32 - 1 && BaseSum(t.base) < 0x4_0000
    ensures InRange(t, emitted, depth)
  {
    PressureFits(t, emitted, depth);
    QuotientFits(emitted + depth * t.depthWeight, t.softness);
    forall c: TokenClass ensures WeightInRange(t.base[c], Pressure(t, emitted, depth)) {
      WeightFits(t.base[c], Pressure(t, emitted, depth));
    }
    TotalFits(t, emitted, depth);
  }

  // ---- Over whole walks

  /** The state `k` turns on from `st`, which stands at the top of turn `n`, if the walk gets there. */
  ghost function TopFrom(turn: (nat, State) -> Turn, budget: nat, n: nat, st: State, k: nat): (r: Option<State>)
    decreases k
  {
    if k == 0 then Some(st)
    else if n < budget && turn(n, st).On? then TopFrom(turn, budget, n + 1, turn(n, st).st, k - 1)
    else None
  }

  ghost function Turns(g: Grammar, t: Tables, stop: StopRule, rand: nat -> nat): (turn: (nat, State) -> Turn)
    requires t.softness > 0
  {
    (n: nat, st: State) => TurnOf(g, t, stop, rand, n, st)
  }

  function Start(prefix: Text): (st: State) { State(Walk(prefix, []), 0, 0, Walk(prefix, [])) }

  /** The state at the top of turn `n`, if the walk gets there. */
  ghost function TopOf(
      g: Grammar, t: Tables, prefix: Text, stop: StopRule, rand: nat -> nat, n: nat): (r: Option<State>)
    requires t.softness > 0
  {
    TopFrom(Turns(g, t, stop, rand), Budget(stop), 0, Start(prefix), n)
  }

  /** Every turn keeps `p`. */
  ghost predicate Keeps(turn: (nat, State) -> Turn, budget: nat, p: (nat, State) -> bool) {
    forall n: nat, st | n < budget && p(n, st) && turn(n, st).On? :: p(n + 1, turn(n, st).st)
  }

  /** What every turn keeps holds at the top of every turn. */
  lemma {:induction false} TopKeeps(
      turn: (nat, State) -> Turn, budget: nat, p: (nat, State) -> bool, n: nat, st: State, k: nat)
    requires Keeps(turn, budget, p) && p(n, st)
    ensures var top := TopFrom(turn, budget, n, st, k); top.Some? ==> p(n + k, top.value)
    decreases k
  {
    if k > 0 && n < budget && turn(n, st).On? {
      TopKeeps(turn, budget, p, n + 1, turn(n, st).st, k - 1);
    }
  }

  lemma TopKept(
      turn: (nat, State) -> Turn, budget: nat, p: (nat, State) -> bool, st: State, n: nat, top: State)
    requires Keeps(turn, budget, p) && p(0, st)
    ensures TopFrom(turn, budget, 0, st, n) == Some(top) ==> p(n, top)
  {
    TopKeeps(turn, budget, p, 0, st, n);
  }

  /** On the way to `goal`, and no deeper than long. */
  ghost predicate OnWalk(
      g: Grammar, t: Tables, stop: StopRule, rand: nat -> nat, n: nat, st: State, goal: Walk)
    requires t.softness > 0
  {
    Nears(g, t, stop, rand, n, st, true, goal) && st.depth <= n
  }

  ghost function OnWalkTo(g: Grammar, t: Tables, stop: StopRule, rand: nat -> nat, goal: Walk)
    : (p: (nat, State) -> bool)
    requires t.softness > 0
  {
    (n: nat, st: State) => OnWalk(g, t, stop, rand, n, st, goal)
  }

  lemma TurnStaysOn(
      g: Grammar, t: Tables, stop: StopRule, rand: nat -> nat, n: nat, st: State, next: State, goal: Walk)
    requires t.softness > 0 && n < Budget(stop) && OnWalk(g, t, stop, rand, n, st, goal)
    requires TurnOf(g, t, stop, rand, n, st) == On(next)
    ensures OnWalk(g, t, stop, rand, n + 1, next, goal)
  {
    TurnNears(g, t, stop, rand, n, st, On(next), goal);
    TurnDeepens(g, t, stop, rand, n, st, next);
  }

  lemma TurnDeepens(g: Grammar, t: Tables, stop: StopRule, rand: nat -> nat, n: nat, st: State, next: State)
    requires t.softness > 0 && TurnOf(g, t, stop, rand, n, st) == On(next)
    ensures next.depth <= st.depth + 1
  {
  }

  lemma TurnsStayOn(
      g: Grammar, t: Tables, stop: StopRule, rand: nat -> nat, goal: Walk, turn: (nat, State) -> Turn,
      p: (nat, State) -> bool)
    requires t.softness > 0 && turn == Turns(g, t, stop, rand) && p == OnWalkTo(g, t, stop, rand, goal)
    ensures Keeps(turn, Budget(stop), p)
  {
    forall n: nat, st | n < Budget(stop) && p(n, st) && turn(n, st).On?
      ensures p(n + 1, turn(n, st).st)
    {
      StaysOnAt(g, t, stop, rand, goal, turn, p, n, st);
    }
  }

  lemma StaysOnAt(
      g: Grammar, t: Tables, stop: StopRule, rand: nat -> nat, goal: Walk, turn: (nat, State) -> Turn,
      p: (nat, State) -> bool, n: nat, st: State)
    requires t.softness > 0 && turn == Turns(g, t, stop, rand) && p == OnWalkTo(g, t, stop, rand, goal)
    ensures n < Budget(stop) && p(n, st) && turn(n, st).On? ==> p(n + 1, turn(n, st).st)
  {
    if n < Budget(stop) && p(n, st) && turn(n, st).On? {
      TurnStaysOn(g, t, stop, rand, n, st, turn(n, st).st, goal);
    }
  }

  lemma StartsOn(g: Grammar, t: Tables, prefix: Text, stop: StopRule, rand: nat -> nat, goal: Walk)
    requires t.softness > 0 && goal == WalkFrom(g, prefix, rand, t, stop)
    ensures OnWalkTo(g, t, stop, rand, goal)(0, Start(prefix))
  {
  }

  lemma EndsOn(g: Grammar, t: Tables, stop: StopRule, rand: nat -> nat, n: nat, st: State, goal: Walk)
    requires t.softness > 0
    ensures OnWalkTo(g, t, stop, rand, goal)(n, st) ==> OnWalk(g, t, stop, rand, n, st, goal)
  {
  }

  /** It is the walk's own state there: walking on from it gives the whole walk. And a walk is
      never deeper than it is long. */
  lemma TopIsOnWalk(
      g: Grammar, t: Tables, prefix: Text, stop: StopRule, rand: nat -> nat, n: nat, top: State, goal: Walk)
    requires t.softness > 0 && TopOf(g, t, prefix, stop, rand, n) == Some(top)
    requires goal == WalkFrom(g, prefix, rand, t, stop)
    ensures OnWalk(g, t, stop, rand, n, top, goal)
  {
    var turn, p := Turns(g, t, stop, rand), OnWalkTo(g, t, stop, rand, goal);
    StartsOn(g, t, prefix, stop, rand, goal);
    TurnsStayOn(g, t, stop, rand, goal, turn, p);
    EndsOn(g, t, stop, rand, n, top, goal);
    TopKept(turn, Budget(stop), p, Start(prefix), n, top);
  }

  lemma ProductFits(n: nat, depth: nat, weight: nat)
    requires depth <= n <= MAX_TOKENS
    ensures n + depth * weight <= MAX_TOKENS * (1 + weight)
  {
    MulGrows(depth, MAX_TOKENS, weight);
  }

  /** No pick of any walk leaves 32 bits under a policy whose base weights and depth weight are
      small enough, whatever the oracle and the draws. */
  lemma WalksStayInRange(
      g: Grammar, t: Tables, prefix: Text, stop: StopRule, rand: nat -> nat, n: nat, top: State)
    requires t.softness > 0 && BaseSum(t.base) < 0x4_0000 && MAX_TOKENS * (1 + t.depthWeight) < TWO_32 - 1
    requires TopOf(g, t, prefix, stop, rand, n) == Some(top)
    ensures n <= Budget(stop) && InRange(t, n, top.depth)
  {
    TopIsOnWalk(g, t, prefix, stop, rand, n, top, WalkFrom(g, prefix, rand, t, stop));
    ProductFits(n, top.depth, t.depthWeight);
    PickFits(t, n, top.depth);
  }

  /** So no pick of any walk does under the default policy. */
  lemma DefaultWalksStayInRange(
      g: Grammar, prefix: Text, stop: StopRule, rand: nat -> nat, n: nat, top: State)
    requires TopOf(g, DEFAULT, prefix, stop, rand, n) == Some(top)
    ensures n <= Budget(stop) && InRange(DEFAULT, n, top.depth)
  {
    DefaultSum();
    WalksStayInRange(g, DEFAULT, prefix, stop, rand, n, top);
  }
}
