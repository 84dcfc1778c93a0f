/** The walk over the grammar: one legal token at a time, to a whole program or a fragment
    (babble/src/lib.rs). */
module BabbleWalk {
  import opened Words
  import opened Utf8
  import opened BabbleTables
  import opened BabbleSampler

  const MAX_TOKENS: nat := 200

  /** What the walk asks of other code: whether a class may come next after a source, and the
      lexeme of a class, which for classes with a payload depends on a drawn number. */
  datatype Grammar = Grammar(admits: (Text, TokenClass) -> bool, lexeme: (TokenClass, nat) -> Text)

  /** Literals, identifiers and placeholders are drawn from a stock. */
  predicate HasPayload(c: TokenClass) { c < 6 }

  function Admitted(g: Grammar, source: Text): (admits: TokenClass -> bool) {
    (c: TokenClass) => g.admits(source, c)
  }

  const SPACE: Text := [0x20]

  /** The source with one more token, kept apart from the last by a space. */
  function Append(source: Text, lexeme: Text): (r: Text)
    ensures source <= r
  {
    if source == [] then lexeme
    else
      ValidConcat(source, SPACE);
      ValidConcat(source + SPACE, lexeme);
      source + SPACE + lexeme
  }

  datatype Step = Step(before: Text, kind: TokenClass)

  datatype Walk = Walk(source: Text, steps: seq<Step>)

  datatype StopRule = WholeProgram | AfterTokens(n: nat)

  function Budget(stop: StopRule): (n: nat) {
    match stop
    case WholeProgram => MAX_TOKENS
    case AfterTokens(n) => Min(n, MAX_TOKENS)
  }

  function Deepen(depth: nat, c: TokenClass): (d: nat) {
    if IsObligation(c) then depth + 1 else if IsCloser(c) then Max(depth - 1, 0) else depth
  }

  /** A walk under way: `whole` is the last complete point, as source and steps so far. */
  datatype State = State(walk: Walk, depth: nat, drawn: nat, whole: Walk)

  /** The latest complete point once the source has been looked at. */
  function Noted(g: Grammar, stop: StopRule, st: State): (w: Walk) {
    if stop == WholeProgram && g.admits(st.walk.source, EOF) then st.walk else st.whole
  }

  function Ended(w: Walk): (r: Walk) { w.(steps := w.steps + [Step(w.source, EOF)]) }

  /** Where a walk that can go no further comes to rest: a fragment stays where it is, a program
      goes back to where it was last whole. */
  function AtRest(stop: StopRule, st: State): (w: Walk) {
    if stop.AfterTokens? then st.walk else Ended(st.whole)
  }

  /** The state after a picked class has been recorded and written out. */
  function Emitted(g: Grammar, rand: nat -> nat, st: State, c: TokenClass): (r: State) {
    var steps := st.walk.steps + [Step(st.walk.source, c)];
    if c == EOF then st.(walk := Walk(st.walk.source, steps), depth := Deepen(st.depth, c))
    else
      var lexeme := g.lexeme(c, if HasPayload(c) then rand(st.drawn) else 0);
      st.(walk := Walk(Append(st.walk.source, lexeme), steps), depth := Deepen(st.depth, c),
          drawn := st.drawn + if HasPayload(c) then 1 else 0)
  }

  /** What one turn of the walk comes to: the program is over, nothing more can come, or on. */
  datatype Turn = Over(walk: Walk) | Stuck(st: State) | On(st: State)

  function TurnOf(g: Grammar, t: Tables, stop: StopRule, rand: nat -> nat, emitted: nat, st: State): (turn: Turn)
    requires t.softness > 0
  {
    if stop == WholeProgram && g.admits(st.walk.source, EOF) && emitted >= t.windDown then Over(Ended(st.walk))
    else
      var now := st.(whole := Noted(g, stop, st));
      var picked := PickFrom(Admitted(g, st.walk.source), Candidates(t, emitted, st.depth), rand, st.drawn);
      if picked.kind.None? then Stuck(now.(drawn := picked.drawn))
      else
        var next := Emitted(g, rand, now.(drawn := picked.drawn), picked.kind.value);
        if picked.kind.value == EOF then Stuck(next) else On(next)
  }

  function WalkOn(g: Grammar, t: Tables, stop: StopRule, rand: nat -> nat, emitted: nat, st: State): (w: Walk)
    requires t.softness > 0 && emitted <= Budget(stop)
    decreases Budget(stop) - emitted
  {
    if emitted == Budget(stop) then AtRest(stop, st)
    else
      match TurnOf(g, t, stop, rand, emitted, st)
      case Over(w) => w
      case Stuck(next) => AtRest(stop, next)
      case On(next) => WalkOn(g, t, stop, rand, emitted + 1, next)
  }

  function WalkFrom(g: Grammar, prefix: Text, rand: nat -> nat, t: Tables, stop: StopRule): (w: Walk)
    requires t.softness > 0
  {
    WalkOn(g, t, stop, rand, 0, State(Walk(prefix, []), 0, 0, Walk(prefix, [])))
  }

  // ---- The source's loop

  method Render(g: Grammar, c: TokenClass, rng: Rng) returns (lexeme: Option<Text>)
    requires rng.Valid()
    modifies rng
    ensures rng.Valid()
    ensures c == EOF ==> lexeme == None && rng.drawn == old(rng.drawn)
    ensures c != EOF ==>
              && lexeme == Some(g.lexeme(c, if HasPayload(c) then Stream(rng.seed)(old(rng.drawn)) else 0))
              && rng.drawn == old(rng.drawn) + if HasPayload(c) then 1 else 0
  {
    if HasPayload(c) {
      var number := rng.Next();
      lexeme := Some(g.lexeme(c, number));
    } else if c == EOF {
      lexeme := None;
    } else {
      lexeme := Some(g.lexeme(c, 0));
    }
  }

  /** The loop's variables; the last complete point is kept as a source length and a step count. */
  datatype Vars = Vars(source: Text, steps: seq<Step>, depth: nat, len: nat, count: nat)

  ghost predicate Holds(st: State, v: Vars, drawn: nat) {
    && st.walk == Walk(v.source, v.steps) && st.depth == v.depth && st.drawn == drawn
    && v.len <= |v.source| && v.count <= |v.steps|
    && st.whole.source == v.source[..v.len] && st.whole.steps == v.steps[..v.count]
  }

  /** Records a picked class and writes its lexeme. */
  method Record(g: Grammar, c: TokenClass, rng: Rng, v: Vars, ghost st: State) returns (v': Vars)
    requires rng.Valid() && Holds(st, v, rng.drawn)
    modifies rng
    ensures rng.Valid() && Holds(Emitted(g, Stream(rng.seed), st, c), v', rng.drawn)
  {
    v' := v;
    if IsObligation(c) {
      v' := v'.(depth := v.depth + 1);
    } else if IsCloser(c) {
      v' := v'.(depth := Max(v.depth - 1, 0));
    }
    v' := v'.(steps := v.steps + [Step(v.source, c)]);
    var lexeme := Render(g, c, rng);
    if lexeme.Some? {
      v' := v'.(source := Append(v.source, lexeme.value));
    }
  }

  /** One pass of the loop. */
  method TakeTurn(
      g: Grammar, t: Tables, stop: StopRule, emitted: nat, rng: Rng, v: Vars, ghost st: State, ghost turn: Turn)
    returns (over: bool, went: bool, v': Vars)
    requires t.softness > 0 && rng.Valid() && Holds(st, v, rng.drawn)
    requires turn == TurnOf(g, t, stop, Stream(rng.seed), emitted, st)
    modifies rng
    ensures rng.Valid() && over == turn.Over? && went == turn.On?
    ensures if over then turn.walk == Walk(v'.source, v'.steps) else Holds(turn.st, v', rng.drawn)
  {
    over, went, v' := false, false, v;
    ghost var now := st.(whole := Noted(g, stop, st));
    if stop == WholeProgram && g.admits(v.source, EOF) {
      v' := v'.(len := |v.source|, count := |v.steps|);
      if emitted >= t.windDown {
        over, v' := true, v'.(steps := v.steps + [Step(v.source, EOF)]);
        return;
      }
    }
    var kind := Pick(Admitted(g, v.source), rng, t, emitted, v.depth);
    now := now.(drawn := rng.drawn);
    if kind.Some? {
      v' := Record(g, kind.value, rng, v', now);
      went := kind.value != EOF;
    }
  }

  /** The loop is on its way to `goal`: by walking on if the last turn went, else by resting. */
  ghost predicate Nears(
      g: Grammar, t: Tables, stop: StopRule, rand: nat -> nat, emitted: nat, st: State, went: bool, goal: Walk)
    requires t.softness > 0
  {
    emitted <= Budget(stop) && goal == if went then WalkOn(g, t, stop, rand, emitted, st) else AtRest(stop, st)
  }

  lemma TurnNears(
      g: Grammar, t: Tables, stop: StopRule, rand: nat -> nat, emitted: nat, st: State, turn: Turn, goal: Walk)
    requires t.softness > 0 && emitted < Budget(stop) && turn == TurnOf(g, t, stop, rand, emitted, st)
    requires Nears(g, t, stop, rand, emitted, st, true, goal)
    ensures turn.Over? ==> goal == turn.walk
    ensures !turn.Over? ==> Nears(g, t, stop, rand, if turn.On? then emitted + 1 else emitted, turn.st, turn.On?, goal)
  {
  }

  lemma RestNears(
      g: Grammar, t: Tables, stop: StopRule, rand: nat -> nat, emitted: nat, st: State, went: bool, goal: Walk)
    requires t.softness > 0 && Nears(g, t, stop, rand, emitted, st, went, goal) && (went ==> emitted == Budget(stop))
    ensures goal == AtRest(stop, st)
  {
  }

  method WalkFromSeed(g: Grammar, prefix: Text, seed: bv64, t: Tables, stop: StopRule) returns (w: Walk)
    requires t.softness > 0
    ensures w == WalkFrom(g, prefix, Stream(seed), t, stop)
  {
    var rng := new Rng(seed);
    var v := Vars(prefix, [], 0, |prefix|, 0);
    ghost var st := State(Walk(prefix, []), 0, 0, Walk(prefix, []));
    ghost var goal := WalkFrom(g, prefix, Stream(seed), t, stop);
    var emitted, went := 0, true;
    while emitted < Budget(stop) && went
      invariant rng.Valid() && rng.seed == seed && Holds(st, v, rng.drawn)
      invariant Nears(g, t, stop, Stream(seed), emitted, st, went, goal)
      decreases Budget(stop) - emitted, went
    {
      ghost var turn := TurnOf(g, t, stop, Stream(seed), emitted, st);
      TurnNears(g, t, stop, Stream(seed), emitted, st, turn, goal);
      var over;
      over, went, v := TakeTurn(g, t, stop, emitted, rng, v, st, turn);
      if over {
        return Walk(v.source, v.steps);
      }
      st, emitted := turn.st, if went then emitted + 1 else emitted;
    }
    RestNears(g, t, stop, Stream(seed), emitted, st, went, goal);
    w := Rest(stop, v, st, rng.drawn);
  }

  method Rest(stop: StopRule, v: Vars, ghost st: State, ghost drawn: nat) returns (w: Walk)
    requires Holds(st, v, drawn)
    ensures w == AtRest(stop, st)
  {
    if stop.AfterTokens? {
      return Walk(v.source, v.steps);
    }
    var whole: Text := v.source[..v.len];
    w := Walk(whole, v.steps[..v.count] + [Step(whole, EOF)]);
  }
}
