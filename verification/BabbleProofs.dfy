/** Every walk is legal, whole programs are whole, and fragments nest (babble/src/lib.rs). */
module BabbleProofs {
  import opened Words
  import opened Utf8
  import opened BabbleTables
  import opened BabbleSampler
  import opened BabbleWalk

  // ---- Paths

  /** The source after `i` steps. */
  function Boundary(w: Walk, i: nat): (source: Text)
    requires i <= |w.steps|
  {
    if i < |w.steps| then w.steps[i].before else w.source
  }

  /** `after` is `before` and then the lexeme, behind one space; or the lexeme alone, after nothing. */
  ghost predicate Spaced(before: bytes, lexeme: bytes, after: bytes) {
    if before == [] then after == lexeme
    else
      && |after| == |before| + 1 + |lexeme|
      && after[..|before|] == before && after[|before|] == 0x20 && after[|before| + 1..] == lexeme
  }

  lemma AppendIsSpaced(source: Text, lexeme: Text)
    ensures Spaced(source, lexeme, Append(source, lexeme))
  {
  }

  /** Writing the step's token turns its source into `after`. */
  ghost predicate Writes(g: Grammar, step: Step, after: Text) {
    exists number :: Spaced(step.before, g.lexeme(step.kind, number), after)
  }

  /** A legal step that is not the end, and what follows it. */
  ghost predicate LegalStep(g: Grammar, w: Walk, i: nat)
    requires i < |w.steps|
  {
    && g.admits(w.steps[i].before, w.steps[i].kind)
    && w.steps[i].kind != EOF
    && Writes(g, w.steps[i], Boundary(w, i + 1))
  }

  /** From `prefix`, one legal token after another, none of them the end. */
  ghost predicate Open(g: Grammar, prefix: Text, w: Walk) {
    Boundary(w, 0) == prefix && forall i | 0 <= i < |w.steps| :: LegalStep(g, w, i)
  }

  /** The walk an ended one ends. */
  function Body(w: Walk): (r: Walk)
    requires w.steps != []
  {
    w.(steps := w.steps[..|w.steps| - 1])
  }

  /** An open path and then the end, which the oracle admits there. */
  ghost predicate Closed(g: Grammar, prefix: Text, w: Walk) {
    && w.steps != []
    && w.steps[|w.steps| - 1] == Step(w.source, EOF)
    && g.admits(w.source, EOF)
    && Open(g, prefix, Body(w))
  }

  lemma OpenGrows(g: Grammar, prefix: Text, w: Walk, c: TokenClass, number: nat)
    requires Open(g, prefix, w) && c != EOF && g.admits(w.source, c)
    ensures Open(g, prefix, Walk(Append(w.source, g.lexeme(c, number)), w.steps + [Step(w.source, c)]))
  {
    var w' := Walk(Append(w.source, g.lexeme(c, number)), w.steps + [Step(w.source, c)]);
    AppendIsSpaced(w.source, g.lexeme(c, number));
    forall i | 0 <= i < |w'.steps|
      ensures LegalStep(g, w', i)
    {
      if i < |w.steps| {
        assert LegalStep(g, w, i) && Boundary(w', i + 1) == Boundary(w, i + 1);
      } else {
        assert w'.steps[i] == Step(w.source, c) && Writes(g, w'.steps[i], w'.source);
      }
    }
  }

  /** Cutting an open path at a boundary leaves an open path. */
  lemma OpenCut(g: Grammar, prefix: Text, w: Walk, i: nat)
    requires Open(g, prefix, w) && i <= |w.steps|
    ensures Open(g, prefix, Walk(Boundary(w, i), w.steps[..i]))
  {
    var w' := Walk(Boundary(w, i), w.steps[..i]);
    forall j | 0 <= j < i
      ensures LegalStep(g, w', j)
    {
      assert LegalStep(g, w, j) && Boundary(w', j + 1) == Boundary(w, j + 1);
    }
  }

  /** Later boundaries extend earlier ones. */
  lemma {:induction false} BoundariesExtend(g: Grammar, prefix: Text, w: Walk, i: nat, j: nat)
    requires Open(g, prefix, w) && i <= j <= |w.steps|
    ensures Boundary(w, i) <= Boundary(w, j)
    decreases j
  {
    if i < j {
      BoundariesExtend(g, prefix, w, i, j - 1);
      assert LegalStep(g, w, j - 1);
    }
  }

  // ---- One turn

  /** What holds at the top of each turn of a whole-program walk: `n` steps so far, a last
      complete point on the same path, and no complete point passed by since the wind-down. */
  ghost predicate Inv(g: Grammar, t: Tables, prefix: Text, stop: StopRule, n: nat, st: State) {
    && Open(g, prefix, st.walk) && |st.walk.steps| == n
    && Open(g, prefix, st.whole) && st.whole.steps <= st.walk.steps
    && (st.whole == Walk(prefix, []) || g.admits(st.whole.source, EOF))
    && (stop == WholeProgram && n > 0 && g.admits(prefix, EOF) ==> g.admits(st.whole.source, EOF))
    && (stop == WholeProgram ==> Unwound(g, t, st.walk.steps))
  }

  /** No step from the wind-down on was taken where the program was complete. */
  ghost predicate Unwound(g: Grammar, t: Tables, steps: seq<Step>) {
    forall i | t.windDown <= i < |steps| :: !g.admits(steps[i].before, EOF)
  }

  /** A pick is legal here. */
  lemma PickAdmitted(g: Grammar, t: Tables, rand: nat -> nat, emitted: nat, st: State, c: TokenClass)
    requires t.softness > 0
    requires PickFrom(Admitted(g, st.walk.source), Candidates(t, emitted, st.depth), rand, st.drawn).kind == Some(c)
    ensures g.admits(st.walk.source, c)
  {
    PickIsLegal(Admitted(g, st.walk.source), Candidates(t, emitted, st.depth), rand, st.drawn);
  }

  lemma NotedKeeps(g: Grammar, t: Tables, prefix: Text, stop: StopRule, n: nat, st: State)
    requires Inv(g, t, prefix, stop, n, st)
    ensures Inv(g, t, prefix, stop, n, st.(whole := Noted(g, stop, st)))
    ensures stop == WholeProgram && g.admits(prefix, EOF) ==> g.admits(Noted(g, stop, st).source, EOF)
    ensures stop == WholeProgram && g.admits(st.walk.source, EOF) ==> Noted(g, stop, st) == st.walk
  {
  }

  lemma EmittedKeeps(
      g: Grammar, t: Tables, prefix: Text, stop: StopRule, n: nat, rand: nat -> nat, st: State, c: TokenClass)
    requires Inv(g, t, prefix, stop, n, st) && c != EOF && g.admits(st.walk.source, c)
    requires stop == WholeProgram && g.admits(prefix, EOF) ==> g.admits(st.whole.source, EOF)
    requires stop == WholeProgram && n >= t.windDown ==> !g.admits(st.walk.source, EOF)
    ensures Inv(g, t, prefix, stop, n + 1, Emitted(g, rand, st, c))
  {
    OpenGrows(g, prefix, st.walk, c, if HasPayload(c) then rand(st.drawn) else 0);
  }

  /** What a turn that does not go on leaves, and what one that does. */
  lemma TurnKeeps(g: Grammar, t: Tables, prefix: Text, stop: StopRule, rand: nat -> nat, n: nat, st: State, turn: Turn)
    requires t.softness > 0 && Inv(g, t, prefix, stop, n, st) && turn == TurnOf(g, t, stop, rand, n, st)
    ensures turn.Over? ==> stop == WholeProgram && turn.walk == Ended(st.walk) && g.admits(st.walk.source, EOF)
    ensures turn.On? ==> Inv(g, t, prefix, stop, n + 1, turn.st) && st.walk.steps <= turn.st.walk.steps
    ensures turn.Stuck? ==> Resting(g, t, prefix, stop, n, turn.st)
  {
    NotedKeeps(g, t, prefix, stop, n, st);
    if !turn.Over? {
      var picked := PickFrom(Admitted(g, st.walk.source), Candidates(t, n, st.depth), rand, st.drawn);
      var now := st.(whole := Noted(g, stop, st), drawn := picked.drawn);
      if picked.kind.Some? {
        PickAdmitted(g, t, rand, n, st, picked.kind.value);
        if picked.kind.value != EOF {
          EmittedKeeps(g, t, prefix, stop, n, rand, now, picked.kind.value);
        } else {
          assert Body(turn.st.walk) == st.walk;
        }
      }
    }
  }

  /** Where a walk stops short of its budget: a fragment with or without a legal end, a program
      at its last complete point. */
  ghost predicate Resting(g: Grammar, t: Tables, prefix: Text, stop: StopRule, n: nat, st: State) {
    && ((Open(g, prefix, st.walk) && |st.walk.steps| == n) || (Closed(g, prefix, st.walk) && |st.walk.steps| == n + 1))
    && Open(g, prefix, st.whole)
    && (st.whole == Walk(prefix, []) || g.admits(st.whole.source, EOF))
    && (stop == WholeProgram && g.admits(prefix, EOF) ==> g.admits(st.whole.source, EOF))
    && |st.whole.steps| <= n
    && (stop == WholeProgram ==> Unwound(g, t, st.whole.steps))
  }

  // ---- Whole programs

  /** What a whole-program walk returns. It ends in `Eof` at the returned source, and everything
      before is an open path that passed no complete point since the wind-down. */
  ghost predicate Program(g: Grammar, t: Tables, prefix: Text, w: Walk) {
    && w.steps != [] && |w.steps| <= MAX_TOKENS + 1
    && w.steps[|w.steps| - 1] == Step(w.source, EOF)
    && Open(g, prefix, Body(w)) && Unwound(g, t, Body(w).steps)
    && (Closed(g, prefix, w) <==> g.admits(prefix, EOF) || |w.steps| > 1)
  }

  lemma EndedIsProgram(g: Grammar, t: Tables, prefix: Text, w: Walk)
    requires Open(g, prefix, w) && |w.steps| <= MAX_TOKENS && Unwound(g, t, w.steps)
    requires w == Walk(prefix, []) || g.admits(w.source, EOF)
    requires g.admits(prefix, EOF) ==> g.admits(w.source, EOF)
    ensures Program(g, t, prefix, Ended(w))
  {
    assert Body(Ended(w)) == w;
  }

  lemma {:induction false} WalkOnIsProgram(
      g: Grammar, t: Tables, prefix: Text, rand: nat -> nat, n: nat, st: State, w: Walk)
    requires t.softness > 0 && n <= MAX_TOKENS && Inv(g, t, prefix, WholeProgram, n, st)
    requires w == WalkOn(g, t, WholeProgram, rand, n, st)
    ensures Program(g, t, prefix, w)
    decreases MAX_TOKENS - n
  {
    if n == MAX_TOKENS {
      EndedIsProgram(g, t, prefix, st.whole);
    } else {
      var turn := TurnOf(g, t, WholeProgram, rand, n, st);
      TurnKeeps(g, t, prefix, WholeProgram, rand, n, st, turn);
      TurnNears(g, t, WholeProgram, rand, n, st, turn, w);
      if turn.Over? {
        EndedIsProgram(g, t, prefix, st.walk);
      } else if turn.Stuck? {
        EndedIsProgram(g, t, prefix, turn.st.whole);
      } else {
        WalkOnIsProgram(g, t, prefix, rand, n + 1, turn.st, w);
      }
    }
  }

  lemma StartKeeps(g: Grammar, t: Tables, prefix: Text, stop: StopRule)
    ensures Inv(g, t, prefix, stop, 0, State(Walk(prefix, []), 0, 0, Walk(prefix, [])))
  {
  }

  /** For every oracle, policy, prefix and stream of numbers. */
  lemma WholeProgramWalks(g: Grammar, t: Tables, prefix: Text, rand: nat -> nat)
    requires t.softness > 0
    ensures Program(g, t, prefix, WalkFrom(g, prefix, rand, t, WholeProgram))
  {
    StartKeeps(g, t, prefix, WholeProgram);
    WalkOnIsProgram(
      g, t, prefix, rand, 0, State(Walk(prefix, []), 0, 0, Walk(prefix, [])),
      WalkFrom(g, prefix, rand, t, WholeProgram));
  }

  /** From nothing, given that nothing is a program, a babbled program is always complete. */
  lemma BabbledProgramsAreWhole(g: Grammar, t: Tables, rand: nat -> nat)
    requires t.softness > 0 && g.admits([], EOF)
    ensures Closed(g, [], WalkFrom(g, [], rand, t, WholeProgram))
  {
    WholeProgramWalks(g, t, [], rand);
  }

  // ---- Fragments

  /** What a walk with a token budget returns: a legal path, ended or not, within the budget. */
  ghost predicate Fragment(g: Grammar, prefix: Text, n: nat, w: Walk) {
    (Open(g, prefix, w) || Closed(g, prefix, w)) && |w.steps| <= Min(n, MAX_TOKENS)
  }

  lemma {:induction false} WalkOnIsFragment(
      g: Grammar, t: Tables, prefix: Text, rand: nat -> nat, k: nat, n: nat, st: State, w: Walk)
    requires t.softness > 0 && n <= Min(k, MAX_TOKENS) && Inv(g, t, prefix, AfterTokens(k), n, st)
    requires w == WalkOn(g, t, AfterTokens(k), rand, n, st)
    ensures Fragment(g, prefix, k, w)
    decreases MAX_TOKENS - n
  {
    if n < Min(k, MAX_TOKENS) {
      var turn := TurnOf(g, t, AfterTokens(k), rand, n, st);
      TurnKeeps(g, t, prefix, AfterTokens(k), rand, n, st, turn);
      TurnNears(g, t, AfterTokens(k), rand, n, st, turn, w);
      if turn.On? {
        WalkOnIsFragment(g, t, prefix, rand, k, n + 1, turn.st, w);
      }
    }
  }

  lemma FragmentWalks(g: Grammar, t: Tables, prefix: Text, rand: nat -> nat, k: nat)
    requires t.softness > 0
    ensures Fragment(g, prefix, k, WalkFrom(g, prefix, rand, t, AfterTokens(k)))
  {
    StartKeeps(g, t, prefix, AfterTokens(k));
    WalkOnIsFragment(
      g, t, prefix, rand, k, 0, State(Walk(prefix, []), 0, 0, Walk(prefix, [])),
      WalkFrom(g, prefix, rand, t, AfterTokens(k)));
  }

  /** `w` is `w'` cut at one of its boundaries. */
  ghost predicate CutOf(w: Walk, w': Walk) {
    w.steps <= w'.steps && w.source == Boundary(w', |w.steps|)
  }

  /** Whether a token budget's walk takes another turn, and the state after it. */
  ghost predicate Goes(g: Grammar, t: Tables, rand: nat -> nat, k: nat, n: nat, st: State, next: State)
    requires t.softness > 0
  {
    n < Budget(AfterTokens(k)) && TurnOf(g, t, AfterTokens(k), rand, n, st) == On(next)
  }

  lemma GoesNears(g: Grammar, t: Tables, rand: nat -> nat, k: nat, n: nat, st: State, next: State, w: Walk)
    requires t.softness > 0 && Nears(g, t, AfterTokens(k), rand, n, st, true, w) && Goes(g, t, rand, k, n, st, next)
    ensures Nears(g, t, AfterTokens(k), rand, n + 1, next, true, w) && CutOf(st.walk, next.walk)
  {
  }

  /** A walk that takes no other turn has come to rest, one last step on at most. */
  lemma RestsHere(g: Grammar, t: Tables, rand: nat -> nat, k: nat, n: nat, st: State, w: Walk)
    requires t.softness > 0 && Nears(g, t, AfterTokens(k), rand, n, st, true, w)
    requires n < Budget(AfterTokens(k)) ==> !TurnOf(g, t, AfterTokens(k), rand, n, st).On?
    ensures w == if n < Budget(AfterTokens(k)) then TurnOf(g, t, AfterTokens(k), rand, n, st).st.walk else st.walk
    ensures CutOf(st.walk, w)
  {
  }

  lemma CutOfCut(w: Walk, w': Walk, w'': Walk)
    requires CutOf(w, w') && CutOf(w', w'')
    ensures CutOf(w, w'')
  {
  }

  lemma GoesOrRests(g: Grammar, t: Tables, rand: nat -> nat, k: nat, n: nat, st: State, w: Walk)
    returns (goes: bool, next: State)
    requires t.softness > 0 && Nears(g, t, AfterTokens(k), rand, n, st, true, w)
    ensures goes ==> n < MAX_TOKENS && Nears(g, t, AfterTokens(k), rand, n + 1, next, true, w)
    ensures goes ==> CutOf(st.walk, next.walk)
    ensures !goes ==> CutOf(st.walk, w)
  {
    goes, next := false, st;
    if n < Budget(AfterTokens(k)) && TurnOf(g, t, AfterTokens(k), rand, n, st).On? {
      goes, next := true, TurnOf(g, t, AfterTokens(k), rand, n, st).st;
      GoesNears(g, t, rand, k, n, st, next, w);
    } else {
      RestsHere(g, t, rand, k, n, st, w);
    }
  }

  /** A walk under a token budget never undoes a step. */
  lemma {:induction false} WalkOnExtends(
      g: Grammar, t: Tables, rand: nat -> nat, k: nat, n: nat, st: State, w: Walk)
    requires t.softness > 0 && Nears(g, t, AfterTokens(k), rand, n, st, true, w)
    ensures CutOf(st.walk, w)
    decreases MAX_TOKENS - n
  {
    var goes, next := GoesOrRests(g, t, rand, k, n, st, w);
    if goes {
      WalkOnExtends(g, t, rand, k, n + 1, next, w);
      CutOfCut(st.walk, next.walk, w);
    }
  }

  /** The turns of two budgets are the same while both last. */
  lemma SameTurn(g: Grammar, t: Tables, rand: nat -> nat, k: nat, k': nat, n: nat, st: State)
    requires t.softness > 0
    ensures TurnOf(g, t, AfterTokens(k), rand, n, st) == TurnOf(g, t, AfterTokens(k'), rand, n, st)
  {
  }

  /** Where the smaller budget rests, the larger one passes or rests too. */
  lemma RestsNest(g: Grammar, t: Tables, rand: nat -> nat, k: nat, k': nat, n: nat, st: State, w: Walk, w': Walk)
    requires t.softness > 0 && k <= k'
    requires Nears(g, t, AfterTokens(k), rand, n, st, true, w) && Nears(g, t, AfterTokens(k'), rand, n, st, true, w')
    requires n < Budget(AfterTokens(k)) ==> !TurnOf(g, t, AfterTokens(k), rand, n, st).On?
    ensures CutOf(w, w')
  {
    RestsHere(g, t, rand, k, n, st, w);
    if n < Budget(AfterTokens(k)) {
      SameTurn(g, t, rand, k, k', n, st);
      RestsHere(g, t, rand, k', n, st, w');
    } else {
      WalkOnExtends(g, t, rand, k', n, st, w');
    }
  }

  lemma BothGoOrNest(g: Grammar, t: Tables, rand: nat -> nat, k: nat, k': nat, n: nat, st: State, w: Walk, w': Walk)
    returns (go: bool, next: State)
    requires t.softness > 0 && k <= k'
    requires Nears(g, t, AfterTokens(k), rand, n, st, true, w) && Nears(g, t, AfterTokens(k'), rand, n, st, true, w')
    ensures go ==> n < MAX_TOKENS && Nears(g, t, AfterTokens(k), rand, n + 1, next, true, w)
    ensures go ==> Nears(g, t, AfterTokens(k'), rand, n + 1, next, true, w')
    ensures !go ==> CutOf(w, w')
  {
    go, next := false, st;
    if n < Budget(AfterTokens(k)) && TurnOf(g, t, AfterTokens(k), rand, n, st).On? {
      go, next := true, TurnOf(g, t, AfterTokens(k), rand, n, st).st;
      SameTurn(g, t, rand, k, k', n, st);
      GoesNears(g, t, rand, k, n, st, next, w);
      GoesNears(g, t, rand, k', n, st, next, w');
    } else {
      RestsNest(g, t, rand, k, k', n, st, w, w');
    }
  }

  lemma {:induction false} FragmentsNestFrom(
      g: Grammar, t: Tables, rand: nat -> nat, k: nat, k': nat, n: nat, st: State, w: Walk, w': Walk)
    requires t.softness > 0 && k <= k'
    requires Nears(g, t, AfterTokens(k), rand, n, st, true, w) && Nears(g, t, AfterTokens(k'), rand, n, st, true, w')
    ensures CutOf(w, w')
    decreases MAX_TOKENS - n
  {
    var go, next := BothGoOrNest(g, t, rand, k, k', n, st, w, w');
    if go {
      FragmentsNestFrom(g, t, rand, k, k', n + 1, next, w, w');
    }
  }

  /** A smaller token budget gives a token-boundary prefix of what a larger one gives. */
  lemma FragmentsNest(g: Grammar, t: Tables, prefix: Text, rand: nat -> nat, k: nat, k': nat)
    requires t.softness > 0 && k <= k'
    ensures CutOf(WalkFrom(g, prefix, rand, t, AfterTokens(k)), WalkFrom(g, prefix, rand, t, AfterTokens(k')))
  {
    FragmentsNestFrom(
      g, t, rand, k, k', 0, State(Walk(prefix, []), 0, 0, Walk(prefix, [])),
      WalkFrom(g, prefix, rand, t, AfterTokens(k)), WalkFrom(g, prefix, rand, t, AfterTokens(k')));
  }
}
