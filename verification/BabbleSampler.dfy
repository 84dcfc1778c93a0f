/** The rejection sampler and the distribution it draws from (babble/src/lib.rs). */
module BabbleSampler {
  import opened Words
  import opened BabbleTables

  // ---- The generator

  function Right12(s: bv64): (r: bv64) { s ^ (s >> 12) }

  function Left25(s: bv64): (r: bv64) { s ^ (s << 25) }

  function Right27(s: bv64): (r: bv64) { s ^ (s >> 27) }

  /** xorshift64*: the state's next value, and the number a state yields. */
  function Mix(s: bv64): (r: bv64) { Right27(Left25(Right12(s))) }

  function Scramble(s: bv64): (n: nat) { (s * 0x2545_F491_4F6C_DD1D) as nat }

  const SEED_MASK: bv64 := 0x9E37_79B9_7F4A_7C15

  function StateAt(seed: bv64, n: nat): (s: bv64) {
    if n == 0 then seed ^ SEED_MASK else Mix(StateAt(seed, n - 1))
  }

  /** The numbers a seed yields, in order. */
  function Stream(seed: bv64): (rand: nat -> nat) {
    (n: nat) => Scramble(StateAt(seed, n + 1))
  }

  /** The first numbers of some seeds, as the generator's constants make them. */
  lemma FirstNumbers()
    ensures Stream(0)(0) == 0x0D83_B3E2_9A21_487A && Stream(0)(1) == 0x54C4_4C79_F1FE_9D67
    ensures Stream(1)(0) == 0x102A_CEB9_AF8E_2597 && Stream(1)(1) == 0x24B8_9D23_169E_484A
    ensures Stream(42)(0) == 0x0832_8D7F_03BC_EC1A && Stream(42)(1) == 0x077E_7279_E17A_B6CD
  {
    assert StateAt(0, 1) == 0x03F7_21DF_FE39_B342 by { assert StateAt(0, 0) == 0x9E37_79B9_7F4A_7C15; }
    assert StateAt(0, 2) == 0x5830_9207_57D4_1153;
    assert StateAt(1, 1) == 0x03F7_21DF_FC39_B343 by { assert StateAt(1, 0) == 0x9E37_79B9_7F4A_7C14; }
    assert StateAt(1, 2) == 0x5834_9247_5754_3952;
    assert StateAt(42, 1) == 0x03F7_21DF_AA39_B362 by { assert StateAt(42, 0) == 0x9E37_79B9_7F4A_7C3F; }
    assert StateAt(42, 2) == 0x5898_9887_56D0_0171;
  }

  lemma Right12KeepsZero(s: bv64)
    ensures Right12(s) == 0 <==> s == 0
  {
  }

  lemma Left25KeepsZero(s: bv64)
    ensures Left25(s) == 0 <==> s == 0
  {
  }

  lemma Right27KeepsZero(s: bv64)
    ensures Right27(s) == 0 <==> s == 0
  {
  }

  lemma MaskIsZero(s: bv64)
    ensures s ^ SEED_MASK == 0 <==> s == SEED_MASK
  {
  }

  /** The absorbing zero state is reached from one seed only, and from it at once. */
  lemma {:induction false} StuckIffMaskSeed(seed: bv64, n: nat)
    ensures StateAt(seed, n) == 0 <==> seed == SEED_MASK
  {
    if n == 0 {
      MaskIsZero(seed);
    } else {
      StuckIffMaskSeed(seed, n - 1);
      var s := StateAt(seed, n - 1);
      Right12KeepsZero(s);
      Left25KeepsZero(Right12(s));
      Right27KeepsZero(Left25(Right12(s)));
    }
  }

  class Rng {
    const seed: bv64
    var state: bv64
    ghost var drawn: nat

    ghost predicate Valid() reads this { state == StateAt(seed, drawn) }

    constructor (seed: bv64)
      ensures Valid() && this.seed == seed && drawn == 0
    {
      this.seed := seed;
      state := seed ^ SEED_MASK;
      drawn := 0;
    }

    method Next() returns (r: nat)
      requires Valid()
      modifies this
      ensures Valid() && drawn == old(drawn) + 1 && r == Stream(seed)(old(drawn))
    {
      state := Right12(state);
      state := Left25(state);
      state := Right27(state);
      drawn := drawn + 1;
      r := Scramble(state);
    }

    method Below(n: nat) returns (r: nat)
      requires Valid() && n > 0
      modifies this
      ensures Valid() && drawn == old(drawn) + 1 && r == Stream(seed)(old(drawn)) % n
    {
      var x := Next();
      r := x % n;
    }
  }

  // ---- Candidates

  datatype Candidate = Candidate(kind: TokenClass, weight: nat)

  ghost predicate Positive(cs: seq<Candidate>) { forall i | 0 <= i < |cs| :: cs[i].weight > 0 }

  /** The weight of every class at this point of the walk. */
  function Weights(t: Tables, emitted: nat, depth: nat): (ws: seq<nat>)
    requires t.softness > 0
    ensures |ws| == CLASS_COUNT && forall c | 0 <= c < CLASS_COUNT :: ws[c] == Weight(t, c, emitted, depth)
  {
    seq(CLASS_COUNT, c requires 0 <= c < CLASS_COUNT => Weight(t, c, emitted, depth))
  }

  /** Every class below `n` that carries weight, in discriminant order. */
  function Weighted(ws: seq<nat>, n: nat): (cs: seq<Candidate>)
    requires n <= |ws| == CLASS_COUNT
    ensures Positive(cs)
  {
    if n == 0 then []
    else Weighted(ws, n - 1) + if ws[n - 1] > 0 then [Candidate(n - 1, ws[n - 1])] else []
  }

  function Candidates(t: Tables, emitted: nat, depth: nat): (cs: seq<Candidate>)
    requires t.softness > 0
    ensures Positive(cs)
  {
    var ws := Weights(t, emitted, depth);
    Weighted(ws, |ws|)
  }

  /** The legal ones among them. */
  function LegalWeighted(ws: seq<nat>, legal: set<TokenClass>, n: nat): (cs: seq<Candidate>)
    requires n <= |ws| == CLASS_COUNT
  {
    if n == 0 then []
    else
      var rest := LegalWeighted(ws, legal, n - 1);
      rest + if n - 1 in legal && ws[n - 1] > 0 then [Candidate(n - 1, ws[n - 1])] else []
  }

  /** The published distribution: the legal classes with the weights they carry. */
  function Distribution(t: Tables, legal: set<TokenClass>, emitted: nat, depth: nat): (cs: seq<Candidate>)
    requires t.softness > 0
  {
    var ws := Weights(t, emitted, depth);
    LegalWeighted(ws, legal, |ws|)
  }

  /** Every class below `n` that is allowed and carries weight, once and in discriminant order. */
  ghost predicate ListsWeights(
      cs: seq<Candidate>, allows: TokenClass -> bool, t: Tables, emitted: nat, depth: nat, n: nat)
    requires t.softness > 0
  {
    && (forall i, j | 0 <= i < j < |cs| :: cs[i].kind < cs[j].kind)
    && (forall k | k in cs :: k.kind < n)
    && forall k: Candidate | k.kind < n ::
         k in cs <==> allows(k.kind) && k.weight == Weight(t, k.kind, emitted, depth) && k.weight > 0
  }

  lemma ListsNext(
      cs: seq<Candidate>, cs': seq<Candidate>, allows: TokenClass -> bool, t: Tables, emitted: nat, depth: nat,
      c: TokenClass, w: nat)
    requires t.softness > 0 && ListsWeights(cs, allows, t, emitted, depth, c) && w == Weight(t, c, emitted, depth)
    requires cs' == cs + if allows(c) && w > 0 then [Candidate(c, w)] else []
    ensures ListsWeights(cs', allows, t, emitted, depth, c + 1)
  {
    forall i, j | 0 <= i < j < |cs'|
      ensures cs'[i].kind < cs'[j].kind
    {
      assert cs'[i] in cs;
    }
  }

  lemma {:induction false} LegalLists(
      legal: set<TokenClass>, allows: TokenClass -> bool, t: Tables, emitted: nat, depth: nat, n: nat)
    requires t.softness > 0 && n <= CLASS_COUNT && forall c: TokenClass :: allows(c) <==> c in legal
    ensures ListsWeights(LegalWeighted(Weights(t, emitted, depth), legal, n), allows, t, emitted, depth, n)
    decreases n
  {
    if n > 0 {
      LegalLists(legal, allows, t, emitted, depth, n - 1);
      var ws := Weights(t, emitted, depth);
      ListsNext(
        LegalWeighted(ws, legal, n - 1), LegalWeighted(ws, legal, n), allows, t, emitted, depth, n - 1, ws[n - 1]);
    }
  }

  lemma {:induction false} AllLists(allows: TokenClass -> bool, t: Tables, emitted: nat, depth: nat, n: nat)
    requires t.softness > 0 && n <= CLASS_COUNT && forall c: TokenClass :: allows(c)
    ensures ListsWeights(Weighted(Weights(t, emitted, depth), n), allows, t, emitted, depth, n)
    decreases n
  {
    if n > 0 {
      AllLists(allows, t, emitted, depth, n - 1);
      var ws := Weights(t, emitted, depth);
      ListsNext(Weighted(ws, n - 1), Weighted(ws, n), allows, t, emitted, depth, n - 1, ws[n - 1]);
    }
  }

  /** The published distribution lists the legal classes that carry weight; what is drawn from
      lists them all. */
  lemma DistributionLists(legal: set<TokenClass>, t: Tables, emitted: nat, depth: nat)
    requires t.softness > 0
    ensures ListsWeights(Distribution(t, legal, emitted, depth), c => c in legal, t, emitted, depth, 60)
    ensures ListsWeights(Candidates(t, emitted, depth), c => true, t, emitted, depth, 60)
  {
    LegalLists(legal, c => c in legal, t, emitted, depth, CLASS_COUNT);
    AllLists(c => true, t, emitted, depth, CLASS_COUNT);
  }

  /** What of a candidate is counted: all its weight, its weight if it is legal, or its legal
      weight if it stands for one result of the sampler (nothing stands for `None`). */
  datatype Measure = All | Legal(admits: TokenClass -> bool) | For(admits: TokenClass -> bool, r: Option<TokenClass>)

  function Count(m: Measure, k: Candidate): (n: nat) {
    match m
    case All => k.weight
    case Legal(admits) => if admits(k.kind) then k.weight else 0
    case For(admits, r) => if admits(k.kind) && r == Some(k.kind) then k.weight else 0
  }

  function Sum(m: Measure, cs: seq<Candidate>): (n: nat) {
    if cs == [] then 0 else Sum(m, cs[..|cs| - 1]) + Count(m, cs[|cs| - 1])
  }

  /** `Vec::swap_remove`: the last element takes the place of the removed one. */
  function SwapRemove(cs: seq<Candidate>, i: nat): (r: seq<Candidate>)
    requires i < |cs|
    ensures |r| == |cs| - 1 && (Positive(cs) ==> Positive(r))
  {
    var n := |cs| - 1;
    if i == n then cs[..n] else cs[..n][i := cs[n]]
  }

  /** Every other candidate stays where it is, and the last moves to the gap. */
  lemma SwapRemoved(cs: seq<Candidate>, i: nat, j: nat)
    requires i < |cs| && j < |cs| - 1
    ensures SwapRemove(cs, i)[j] == if j == i then cs[|cs| - 1] else cs[j]
  {
  }

  lemma {:induction false} SumUpdate(m: Measure, cs: seq<Candidate>, i: nat, k: Candidate)
    requires i < |cs|
    ensures Sum(m, cs[i := k]) + Count(m, cs[i]) == Sum(m, cs) + Count(m, k)
  {
    var n := |cs| - 1;
    if i < n {
      assert cs[i := k][..n] == cs[..n][i := k];
      SumUpdate(m, cs[..n], i, k);
    } else {
      assert cs[i := k][..n] == cs[..n];
    }
  }

  lemma SumSwapRemove(m: Measure, cs: seq<Candidate>, i: nat)
    requires i < |cs|
    ensures Sum(m, SwapRemove(cs, i)) + Count(m, cs[i]) == Sum(m, cs)
  {
    var n := |cs| - 1;
    if i < n {
      SumUpdate(m, cs[..n], i, cs[n]);
    }
  }

  /** The weight before candidate `i`. */
  function Before(cs: seq<Candidate>, i: nat): (n: nat)
    requires i <= |cs|
  {
    Sum(All, cs[..i])
  }

  lemma BeforeNext(m: Measure, cs: seq<Candidate>, i: nat)
    requires i < |cs|
    ensures Sum(m, cs[..i + 1]) == Sum(m, cs[..i]) + Count(m, cs[i])
  {
    assert cs[..i + 1][..i] == cs[..i];
  }

  lemma {:induction false} BeforeGrows(cs: seq<Candidate>, i: nat, j: nat)
    requires i <= j <= |cs|
    ensures Before(cs, i) <= Before(cs, j)
    decreases j
  {
    if i < j {
      BeforeGrows(cs, i, j - 1);
      BeforeNext(All, cs, j - 1);
    }
  }

  /** Draw `d` falls to candidate `i`. */
  ghost predicate FallsTo(cs: seq<Candidate>, d: nat, i: nat)
    requires i < |cs|
  {
    Before(cs, i) <= d < Before(cs, i + 1)
  }

  function Total(cs: seq<Candidate>): (n: nat) { Sum(All, cs) }

  /** The candidate a draw falls to, looking from candidate `i` with what is left of the draw. */
  function IndexFrom(cs: seq<Candidate>, i: nat, draw: nat): (r: nat)
    requires i < |cs| && Before(cs, i) + draw < Total(cs)
    ensures r < |cs| && FallsTo(cs, Before(cs, i) + draw, r)
    decreases |cs| - i
  {
    BeforeNext(All, cs, i);
    assert cs[..|cs|] == cs;
    if draw < cs[i].weight then i else IndexFrom(cs, i + 1, draw - cs[i].weight)
  }

  function Index(cs: seq<Candidate>, d: nat): (r: nat)
    requires d < Total(cs)
    ensures r < |cs| && FallsTo(cs, d, r)
  {
    assert Before(cs, 0) == 0;
    IndexFrom(cs, 0, d)
  }

  lemma FallsToOne(cs: seq<Candidate>, d: nat, i: nat, j: nat)
    requires i < |cs| && j < |cs| && FallsTo(cs, d, i) && FallsTo(cs, d, j)
    ensures i == j
  {
    if i < j {
      BeforeGrows(cs, i + 1, j);
    } else if j < i {
      BeforeGrows(cs, j + 1, i);
    }
  }

  lemma PositiveTotal(cs: seq<Candidate>)
    requires Positive(cs) && cs != []
    ensures Total(cs) > 0
  {
  }

  // ---- Picking

  datatype Picked = Picked(kind: Option<TokenClass>, drawn: nat)

  /** The candidate the generator's next number falls to. */
  function DrawFrom(cs: seq<Candidate>, number: nat): (i: nat)
    requires Positive(cs) && cs != []
    ensures i < |cs|
  {
    PositiveTotal(cs);
    Index(cs, number % Total(cs))
  }

  /** The number, reduced by the total, falls to the candidate drawn. */
  lemma DrawFalls(cs: seq<Candidate>, number: nat)
    requires Positive(cs) && cs != []
    ensures Total(cs) > 0 && FallsTo(cs, number % Total(cs), DrawFrom(cs, number))
  {
    PositiveTotal(cs);
  }

  /** Draw, ask, and on rejection drop the candidate and draw again. */
  function PickFrom(admits: TokenClass -> bool, cs: seq<Candidate>, rand: nat -> nat, drawn: nat): (r: Picked)
    requires Positive(cs)
    decreases |cs|
  {
    if cs == [] then Picked(None, drawn)
    else
      var i := DrawFrom(cs, rand(drawn));
      if admits(cs[i].kind) then Picked(Some(cs[i].kind), drawn + 1)
      else PickFrom(admits, SwapRemove(cs, i), rand, drawn + 1)
  }

  /** Whatever is drawn, the pick is a legal candidate, and there is none only when no
      candidate is legal. */
  lemma {:induction false} PickIsLegal(admits: TokenClass -> bool, cs: seq<Candidate>, rand: nat -> nat, drawn: nat)
    requires Positive(cs)
    ensures var r := PickFrom(admits, cs, rand, drawn);
            && (r.kind.None? <==> Sum(Legal(admits), cs) == 0)
            && (r.kind.Some? ==> admits(r.kind.value) && exists k :: k in cs && k.kind == r.kind.value)
            && drawn <= r.drawn <= drawn + |cs|
    decreases |cs|
  {
    if cs != [] {
      var i := DrawFrom(cs, rand(drawn));
      SumSwapRemove(Legal(admits), cs, i);
      if !admits(cs[i].kind) {
        PickIsLegal(admits, SwapRemove(cs, i), rand, drawn + 1);
      }
    }
  }

  // ---- The source's loops

  method FindDraw(cs: seq<Candidate>, d: nat) returns (index: nat)
    requires d < Total(cs)
    ensures index == Index(cs, d)
  {
    var draw: nat := d;
    index := 0;
    assert cs[..|cs|] == cs && Before(cs, 0) == 0;
    while index < |cs| && draw >= cs[index].weight
      invariant 0 <= index <= |cs| && Before(cs, index) + draw == d
      invariant index < |cs| ==> IndexFrom(cs, index, draw) == Index(cs, d)
    {
      BeforeNext(All, cs, index);
      draw := draw - cs[index].weight;
      index := index + 1;
    }
  }

  method SumWeights(cs: seq<Candidate>) returns (total: nat)
    ensures total == Total(cs)
  {
    total := 0;
    for i := 0 to |cs|
      invariant total == Before(cs, i)
    {
      BeforeNext(All, cs, i);
      total := total + cs[i].weight;
    }
    assert cs[..|cs|] == cs;
  }

  method DrawIndex(cs: seq<Candidate>, rng: Rng) returns (index: nat)
    requires rng.Valid() && Positive(cs) && cs != []
    modifies rng
    ensures rng.Valid() && rng.drawn == old(rng.drawn) + 1
    ensures index == DrawFrom(cs, Stream(rng.seed)(old(rng.drawn))) && index < |cs|
  {
    PositiveTotal(cs);
    var total := SumWeights(cs);
    var draw := rng.Below(total);
    index := FindDraw(cs, draw);
  }

  method Pick(admits: TokenClass -> bool, rng: Rng, t: Tables, emitted: nat, depth: nat)
    returns (kind: Option<TokenClass>)
    requires t.softness > 0 && rng.Valid()
    modifies rng
    ensures rng.Valid()
    ensures Picked(kind, rng.drawn) == PickFrom(admits, Candidates(t, emitted, depth), Stream(rng.seed), old(rng.drawn))
  {
    var candidates := Candidates(t, emitted, depth);
    ghost var result := PickFrom(admits, candidates, Stream(rng.seed), rng.drawn);
    while candidates != []
      invariant rng.Valid() && Positive(candidates)
      invariant PickFrom(admits, candidates, Stream(rng.seed), rng.drawn) == result
      decreases |candidates|
    {
      var index := DrawIndex(candidates, rng);
      if admits(candidates[index].kind) {
        return Some(candidates[index].kind);
      }
      candidates := SwapRemove(candidates, index);
    }
    kind := None;
  }
}
