/** The ideal chances are those of the sampler itself: its results over every way the draws can
    fall, each equally likely (babble/src/lib.rs). */
module BabbleLikelihood {
  import opened Words
  import opened BabbleTables
  import opened BabbleSampler
  import opened BabbleDistribution

  /** A stream that begins with `numbers`. */
  function Starting(numbers: seq<nat>): (rand: nat -> nat) {
    (n: nat) => if n < |numbers| then numbers[n] else 0
  }

  /** What the sampler returns when it draws `numbers`. */
  function Result(admits: TokenClass -> bool, all: seq<Candidate>, numbers: seq<nat>): (r: Option<TokenClass>)
    requires Positive(all)
  {
    PickFrom(admits, all, Starting(numbers), 0).kind
  }

  function Indicator(b: bool): (x: real) { if b then 1.0 else 0.0 }

  /** How likely the sampler is to return `r`, having drawn `numbers` and with `cs` left: the average
      over the next draw, and once no more is drawn what it does return. */
  ghost function Likelihood(
      admits: TokenClass -> bool, all: seq<Candidate>, cs: seq<Candidate>, r: Option<TokenClass>, numbers: seq<nat>)
    : (p: real)
    requires Positive(all) && Positive(cs)
    decreases |cs|, 2, 0
  {
    if cs == [] then Indicator(Result(admits, all, numbers) == r)
    else
      PositiveTotal(cs);
      Likelihoods(admits, all, cs, r, numbers, Total(cs)) / Total(cs) as real
  }

  ghost function Likelihoods(
      admits: TokenClass -> bool, all: seq<Candidate>, cs: seq<Candidate>, r: Option<TokenClass>, numbers: seq<nat>,
      n: nat)
    : (p: real)
    requires Positive(all) && Positive(cs) && n <= Total(cs)
    decreases |cs|, 1, n
  {
    if n == 0 then 0.0
    else Likelihoods(admits, all, cs, r, numbers, n - 1) + LikelihoodAfter(admits, all, cs, r, numbers, n - 1)
  }

  ghost function LikelihoodAfter(
      admits: TokenClass -> bool, all: seq<Candidate>, cs: seq<Candidate>, r: Option<TokenClass>, numbers: seq<nat>,
      d: nat)
    : (p: real)
    requires Positive(all) && Positive(cs) && d < Total(cs)
    decreases |cs|, 0, 0
  {
    var i := Index(cs, d);
    if admits(cs[i].kind) then Indicator(Result(admits, all, numbers + [d]) == r)
    else Likelihood(admits, all, SwapRemove(cs, i), r, numbers + [d])
  }

  /** After `numbers` the sampler is left with `cs`, whatever comes next. */
  ghost predicate Leaves(admits: TokenClass -> bool, all: seq<Candidate>, numbers: seq<nat>, cs: seq<Candidate>)
    requires Positive(all) && Positive(cs)
  {
    forall more: seq<nat> ::
      PickFrom(admits, all, Starting(numbers + more), 0) == PickFrom(admits, cs, Starting(numbers + more), |numbers|)
  }

  lemma LeavesStart(admits: TokenClass -> bool, all: seq<Candidate>)
    requires Positive(all)
    ensures Leaves(admits, all, [], all)
  {
  }

  lemma DrawIsIndex(cs: seq<Candidate>, d: nat)
    requires Positive(cs) && cs != [] && d < Total(cs)
    ensures DrawFrom(cs, d) == Index(cs, d)
  {
    assert d % Total(cs) == d;
  }

  lemma NumberAt(numbers: seq<nat>, d: nat, more: seq<nat>)
    ensures numbers + [d] + more == numbers + ([d] + more)
    ensures Starting(numbers + ([d] + more))(|numbers|) == d
  {
    assert (numbers + ([d] + more))[|numbers|] == d;
  }

  /** One more draw: settled, or left with one candidate less. */
  lemma DrawOnce(
      admits: TokenClass -> bool, all: seq<Candidate>, numbers: seq<nat>, cs: seq<Candidate>, d: nat, more: seq<nat>)
    requires Positive(all) && Positive(cs) && Leaves(admits, all, numbers, cs) && cs != [] && d < Total(cs)
    ensures var i, rand := Index(cs, d), Starting(numbers + [d] + more);
            PickFrom(admits, all, rand, 0) ==
              if admits(cs[i].kind) then Picked(Some(cs[i].kind), |numbers| + 1)
              else PickFrom(admits, SwapRemove(cs, i), rand, |numbers| + 1)
  {
    NumberAt(numbers, d, more);
    DrawIsIndex(cs, d);
  }

  lemma LeavesNext(admits: TokenClass -> bool, all: seq<Candidate>, numbers: seq<nat>, cs: seq<Candidate>, d: nat)
    requires Positive(all) && Positive(cs) && Leaves(admits, all, numbers, cs) && cs != [] && d < Total(cs)
    requires !admits(cs[Index(cs, d)].kind)
    ensures Leaves(admits, all, numbers + [d], SwapRemove(cs, Index(cs, d)))
  {
    var next, left := numbers + [d], SwapRemove(cs, Index(cs, d));
    forall more: seq<nat>
      ensures PickFrom(admits, all, Starting(next + more), 0) == PickFrom(admits, left, Starting(next + more), |next|)
    {
      DrawOnce(admits, all, numbers, cs, d, more);
    }
  }

  lemma SettledResult(admits: TokenClass -> bool, all: seq<Candidate>, numbers: seq<nat>, cs: seq<Candidate>, d: nat)
    requires Positive(all) && Positive(cs) && Leaves(admits, all, numbers, cs) && cs != [] && d < Total(cs)
    requires admits(cs[Index(cs, d)].kind)
    ensures Result(admits, all, numbers + [d]) == Some(cs[Index(cs, d)].kind)
  {
    DrawOnce(admits, all, numbers, cs, d, []);
    assert numbers + [d] + [] == numbers + [d];
  }

  lemma NothingResult(admits: TokenClass -> bool, all: seq<Candidate>, numbers: seq<nat>)
    requires Positive(all) && Leaves(admits, all, numbers, [])
    ensures Result(admits, all, numbers) == None
  {
    assert numbers + [] == numbers;
  }

  lemma {:induction false} LikelihoodIsProb(
      admits: TokenClass -> bool, all: seq<Candidate>, cs: seq<Candidate>, r: Option<TokenClass>, numbers: seq<nat>)
    requires Positive(all) && Positive(cs) && Leaves(admits, all, numbers, cs)
    ensures Likelihood(admits, all, cs, r, numbers) == Prob(admits, cs, r)
    decreases |cs|, 2, 0
  {
    if cs == [] {
      NothingResult(admits, all, numbers);
    } else {
      PositiveTotal(cs);
      LikelihoodsAreDraws(admits, all, cs, r, numbers, Total(cs));
    }
  }

  lemma {:induction false} LikelihoodsAreDraws(
      admits: TokenClass -> bool, all: seq<Candidate>, cs: seq<Candidate>, r: Option<TokenClass>, numbers: seq<nat>,
      n: nat)
    requires Positive(all) && Positive(cs) && Leaves(admits, all, numbers, cs) && n <= Total(cs)
    ensures Likelihoods(admits, all, cs, r, numbers, n) == DrawSum(cs, Chances(admits, cs, r), n)
    decreases |cs|, 1, n
  {
    if n > 0 {
      LikelihoodsAreDraws(admits, all, cs, r, numbers, n - 1);
      LikelihoodIsChance(admits, all, cs, r, numbers, n - 1);
    }
  }

  lemma {:induction false} LikelihoodIsChance(
      admits: TokenClass -> bool, all: seq<Candidate>, cs: seq<Candidate>, r: Option<TokenClass>, numbers: seq<nat>,
      d: nat)
    requires Positive(all) && Positive(cs) && Leaves(admits, all, numbers, cs) && d < Total(cs)
    ensures LikelihoodAfter(admits, all, cs, r, numbers, d) == Chance(admits, cs, r, Index(cs, d))
    decreases |cs|, 0, 0
  {
    var i := Index(cs, d);
    if admits(cs[i].kind) {
      SettledResult(admits, all, numbers, cs, d);
    } else {
      LeavesNext(admits, all, numbers, cs, d);
      LikelihoodIsProb(admits, all, SwapRemove(cs, i), r, numbers + [d]);
    }
  }

  /** The sampler's own results, averaged over every way the draws can fall, have the chances that
      the distribution lemmas are about. */
  lemma SamplerHasProb(admits: TokenClass -> bool, cs: seq<Candidate>, r: Option<TokenClass>)
    requires Positive(cs)
    ensures Likelihood(admits, cs, cs, r, []) == Prob(admits, cs, r)
  {
    LeavesStart(admits, cs);
    LikelihoodIsProb(admits, cs, cs, r, []);
  }

  /** The sampler's likelihood of a class is its share of the published distribution, and of nothing
      is 0 unless that is empty. */
  lemma SamplerDrawsFromDistribution(
      admits: TokenClass -> bool, t: Tables, legal: set<TokenClass>, emitted: nat, depth: nat, c: TokenClass,
      cs: seq<Candidate>)
    requires t.softness > 0 && Agrees(admits, legal) && cs == Candidates(t, emitted, depth)
    ensures Published(
              Likelihood(admits, cs, cs, None, []), Likelihood(admits, cs, cs, Some(c), []),
              if c in legal then Weight(t, c, emitted, depth) else 0, Total(Distribution(t, legal, emitted, depth)))
  {
    SamplerHasProb(admits, cs, None);
    SamplerHasProb(admits, cs, Some(c));
    PickDrawsFromDistribution(
      admits, t, legal, emitted, depth, c, Prob(admits, cs, None), Prob(admits, cs, Some(c)));
  }
}
