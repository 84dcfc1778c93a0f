/** Rejection sampling draws exactly from the published distribution (babble/src/lib.rs). */
module BabbleDistribution {
  import opened Words
  import opened BabbleTables
  import opened BabbleSampler

  // ---- The sampler under ideal draws

  /** How likely `PickFrom` is to return `r` when every draw is uniform below the total weight of
      the candidates then left: the average over all draws. */
  ghost function Prob(admits: TokenClass -> bool, cs: seq<Candidate>, r: Option<TokenClass>): (p: real)
    requires Positive(cs)
    decreases |cs|, 2
  {
    if cs == [] then (if r == None then 1.0 else 0.0)
    else
      PositiveTotal(cs);
      DrawSum(cs, Chances(admits, cs, r), Total(cs)) / Total(cs) as real
  }

  /** The chance of `r` once each candidate is drawn. */
  ghost function Chances(admits: TokenClass -> bool, cs: seq<Candidate>, r: Option<TokenClass>): (xs: seq<real>)
    requires Positive(cs)
    ensures |xs| == |cs| && forall i | 0 <= i < |xs| :: xs[i] == Chance(admits, cs, r, i)
    decreases |cs|, 1
  {
    seq(|cs|, i requires 0 <= i < |cs| => Chance(admits, cs, r, i))
  }

  /** Drawing a legal candidate settles it; after an illegal one it is drawn again without it. */
  ghost function Chance(admits: TokenClass -> bool, cs: seq<Candidate>, r: Option<TokenClass>, i: nat): (p: real)
    requires Positive(cs) && i < |cs|
    decreases |cs|, 0
  {
    if admits(cs[i].kind) then (if r == Some(cs[i].kind) then 1.0 else 0.0)
    else Prob(admits, SwapRemove(cs, i), r)
  }

  /** The first `n` draws, each worth the `xs` of the candidate it falls to. */
  ghost function DrawSum(cs: seq<Candidate>, xs: seq<real>, n: nat): (p: real)
    requires |xs| == |cs| && n <= Total(cs)
  {
    if n == 0 then 0.0 else DrawSum(cs, xs, n - 1) + xs[Index(cs, n - 1)]
  }

  // ---- Grouping draws by the candidate they fall to

  /** `k` times `x`, by repeated addition. */
  function Multiple(k: nat, x: real): (p: real) {
    if k == 0 then 0.0 else Multiple(k - 1, x) + x
  }

  lemma {:induction false} MultipleIsProduct(k: nat, x: real, y: real)
    requires y == k as real
    ensures Multiple(k, x) == y * x
  {
    if k > 0 {
      MultipleIsProduct(k - 1, x, y - 1.0);
      assert y * x == (y - 1.0) * x + x;
    }
  }

  /** An average, taken as often as there were parts, is the whole. */
  lemma MultipleOfQuotient(k: nat, x: real)
    requires k > 0
    ensures Multiple(k, x / k as real) == x
  {
    MultipleIsProduct(k, x / k as real, k as real);
  }

  lemma {:induction false} MultipleGrows(k: nat, x: real, y: real)
    requires k > 0 && x < y
    ensures Multiple(k, x) < Multiple(k, y)
  {
    if k > 1 {
      MultipleGrows(k - 1, x, y);
    }
  }

  lemma EqualMultiples(k: nat, x: real, y: real)
    requires k > 0 && Multiple(k, x) == Multiple(k, y)
    ensures x == y
  {
    if x < y {
      MultipleGrows(k, x, y);
    } else if y < x {
      MultipleGrows(k, y, x);
    }
  }

  lemma {:induction false} MultipleOfSum(k: nat, x: real, y: real)
    ensures Multiple(k, x + y) == Multiple(k, x) + Multiple(k, y)
  {
    if k > 0 {
      MultipleOfSum(k - 1, x, y);
    }
  }

  lemma {:induction false} SumOfMultiples(j: nat, k: nat, x: real)
    ensures Multiple(j + k, x) == Multiple(j, x) + Multiple(k, x)
  {
    if k > 0 {
      SumOfMultiples(j, k - 1, x);
    }
  }

  lemma {:induction false} MultiplesCommute(j: nat, k: nat, x: real)
    ensures Multiple(j, Multiple(k, x)) == Multiple(k, Multiple(j, x))
  {
    if k == 0 {
      MultipleOfZero(j);
    } else {
      MultiplesCommute(j, k - 1, x);
      MultipleOfSum(j, Multiple(k - 1, x), x);
    }
  }

  lemma {:induction false} MultipleOfZero(k: nat)
    ensures Multiple(k, 0.0) == 0.0
  {
    if k > 0 {
      MultipleOfZero(k - 1);
    }
  }

  lemma {:induction false} MultipleOfOne(k: nat)
    ensures Multiple(k, 1.0) == k as real
  {
    if k > 0 {
      MultipleOfOne(k - 1);
    }
  }

  lemma {:induction false} DrawsOfOne(cs: seq<Candidate>, xs: seq<real>, i: nat, k: nat)
    requires |xs| == |cs| && i < |cs| && k <= cs[i].weight
    requires Before(cs, i) + cs[i].weight == Before(cs, i + 1) <= Total(cs)
    ensures DrawSum(cs, xs, Before(cs, i) + k) == DrawSum(cs, xs, Before(cs, i)) + Multiple(k, xs[i])
    decreases k
  {
    if k > 0 {
      DrawsOfOne(cs, xs, i, k - 1);
      OneMoreDraw(cs, xs, i, Before(cs, i) + k - 1);
    }
  }

  lemma OneMoreDraw(cs: seq<Candidate>, xs: seq<real>, i: nat, d: nat)
    requires |xs| == |cs| && i < |cs| && Before(cs, i) <= d < Before(cs, i + 1) <= Total(cs)
    ensures DrawSum(cs, xs, d + 1) == DrawSum(cs, xs, d) + xs[i]
  {
    FallsToOne(cs, d, Index(cs, d), i);
  }

  lemma Within(cs: seq<Candidate>, i: nat)
    requires i <= |cs|
    ensures Before(cs, i) <= Total(cs)
  {
    BeforeGrows(cs, i, |cs|);
    assert cs[..|cs|] == cs;
  }

  lemma DrawsUpTo(cs: seq<Candidate>, xs: seq<real>, i: nat)
    requires |xs| == |cs| && i < |cs|
    ensures Before(cs, i + 1) <= Total(cs) && Before(cs, i) <= Total(cs)
    ensures DrawSum(cs, xs, Before(cs, i + 1)) == DrawSum(cs, xs, Before(cs, i)) + Multiple(cs[i].weight, xs[i])
  {
    BeforeNext(All, cs, i);
    Within(cs, i + 1);
    DrawsOfOne(cs, xs, i, cs[i].weight);
  }

  // ---- Some candidate is legal

  /** The chances `d` over some candidates, scaled by the legal weight `w`: the `s` of their
      weight that stands for `r` gives it, and their `b` of illegal weight leaves it its share `m`. */
  ghost predicate Balanced(w: nat, m: nat, d: real, s: nat, b: nat) {
    Multiple(w, d) == Multiple(w, s as real) + Multiple(b, m as real)
  }

  /** What drawing one candidate is worth to `r`. */
  ghost predicate Worth(admits: TokenClass -> bool, k: Candidate, r: Option<TokenClass>, w: nat, m: nat, x: real) {
    if admits(k.kind) then x == (if r == Some(k.kind) then 1.0 else 0.0) else Multiple(w, x) == m as real
  }

  lemma BalancedLegal(w: nat, m: nat, d: real, s: nat, b: nat, k: nat, x: real, s': nat)
    requires Balanced(w, m, d, s, b) && ((x == 1.0 && s' == k) || (x == 0.0 && s' == 0))
    ensures Balanced(w, m, d + Multiple(k, x), s + s', b)
  {
    MultipleOfOne(k);
    MultipleOfZero(k);
    MultipleOfSum(w, d, s' as real);
    MultipleOfSum(w, s as real, s' as real);
    assert (s + s') as real == s as real + s' as real;
  }

  lemma BalancedIllegal(w: nat, m: nat, d: real, s: nat, b: nat, k: nat, x: real)
    requires Balanced(w, m, d, s, b) && Multiple(w, x) == m as real
    ensures Balanced(w, m, d + Multiple(k, x), s, b + k)
  {
    MultipleOfSum(w, d, Multiple(k, x));
    MultiplesCommute(w, k, x);
    SumOfMultiples(b, k, m as real);
  }

  lemma BalancedCandidate(
      admits: TokenClass -> bool, k: Candidate, r: Option<TokenClass>, w: nat, m: nat, d: real, s: nat, b: nat, x: real)
    requires Balanced(w, m, d, s, b) && Worth(admits, k, r, w, m, x)
    ensures Balanced(
              w, m, d + Multiple(k.weight, x), s + Count(For(admits, r), k),
              b + (k.weight - Count(Legal(admits), k)))
  {
    if admits(k.kind) {
      BalancedLegal(w, m, d, s, b, k.weight, x, Count(For(admits, r), k));
    } else {
      BalancedIllegal(w, m, d, s, b, k.weight, x);
    }
  }

  function Illegal(admits: TokenClass -> bool, cs: seq<Candidate>): (n: nat) {
    LegalAtMost(admits, cs);
    Total(cs) - Sum(Legal(admits), cs)
  }

  lemma IllegalNext(admits: TokenClass -> bool, cs: seq<Candidate>, i: nat)
    requires i < |cs|
    ensures Illegal(admits, cs[..i + 1]) == Illegal(admits, cs[..i]) + (cs[i].weight - Count(Legal(admits), cs[i]))
  {
    BeforeNext(All, cs, i);
    BeforeNext(Legal(admits), cs, i);
  }

  lemma {:induction false} LegalAtMost(admits: TokenClass -> bool, cs: seq<Candidate>)
    ensures Sum(Legal(admits), cs) <= Total(cs)
  {
    if cs != [] {
      LegalAtMost(admits, cs[..|cs| - 1]);
    }
  }

  /** The draws that fall to the first `i` candidates are in balance. */
  ghost predicate BalancedTo(
      admits: TokenClass -> bool, cs: seq<Candidate>, r: Option<TokenClass>, xs: seq<real>, w: nat, m: nat, i: nat)
    requires |xs| == |cs| && i <= |cs|
  {
    && Before(cs, i) <= Total(cs)
    && Balanced(w, m, DrawSum(cs, xs, Before(cs, i)), Sum(For(admits, r), cs[..i]), Illegal(admits, cs[..i]))
  }

  lemma BalancedNext(
      admits: TokenClass -> bool, cs: seq<Candidate>, r: Option<TokenClass>, xs: seq<real>, w: nat, m: nat, j: nat)
    requires |xs| == |cs| && j < |cs| && Worth(admits, cs[j], r, w, m, xs[j])
    requires BalancedTo(admits, cs, r, xs, w, m, j)
    ensures BalancedTo(admits, cs, r, xs, w, m, j + 1)
  {
    DrawsUpTo(cs, xs, j);
    IllegalNext(admits, cs, j);
    BeforeNext(For(admits, r), cs, j);
    BalancedCandidate(
      admits, cs[j], r, w, m, DrawSum(cs, xs, Before(cs, j)), Sum(For(admits, r), cs[..j]),
      Illegal(admits, cs[..j]), xs[j]);
  }

  lemma {:induction false} ScaledDraws(
      admits: TokenClass -> bool, cs: seq<Candidate>, r: Option<TokenClass>, xs: seq<real>, w: nat, m: nat, i: nat)
    requires |xs| == |cs| && i <= |cs|
    requires forall j | 0 <= j < |cs| :: Worth(admits, cs[j], r, w, m, xs[j])
    ensures BalancedTo(admits, cs, r, xs, w, m, i)
    decreases i
  {
    if i == 0 {
      MultipleOfZero(w);
    } else {
      ScaledDraws(admits, cs, r, xs, w, m, i - 1);
      assert Worth(admits, cs[i - 1], r, w, m, xs[i - 1]);
      BalancedNext(admits, cs, r, xs, w, m, i - 1);
    }
  }

  lemma ShareOfDraws(w: nat, m: nat, t: nat, d: real, q: real)
    requires w <= t && t > 0 && Balanced(w, m, d, m, t - w) && d == Multiple(t, q)
    ensures Multiple(w, q) == m as real
  {
    SumOfMultiples(w, t - w, m as real);
    MultiplesCommute(w, t, q);
    EqualMultiples(t, Multiple(w, q), m as real);
  }

  /** With a legal candidate, each result comes with its share of the legal weight: every class
      in proportion, and no class never. */
  lemma {:induction false} ProportionalDraw(
      admits: TokenClass -> bool, cs: seq<Candidate>, r: Option<TokenClass>, w: nat, m: nat)
    requires Positive(cs) && w == Sum(Legal(admits), cs) > 0 && m == Sum(For(admits, r), cs)
    ensures Multiple(w, Prob(admits, cs, r)) == m as real
    decreases |cs|
  {
    var xs := Chances(admits, cs, r);
    forall j | 0 <= j < |cs|
      ensures Worth(admits, cs[j], r, w, m, xs[j])
    {
      if !admits(cs[j].kind) {
        SumSwapRemove(Legal(admits), cs, j);
        SumSwapRemove(For(admits, r), cs, j);
        ProportionalDraw(admits, SwapRemove(cs, j), r, w, m);
      }
    }
    ScaledDraws(admits, cs, r, xs, w, m, |cs|);
    assert cs[..|cs|] == cs;
    PositiveTotal(cs);
    MultipleOfQuotient(Total(cs), DrawSum(cs, xs, Total(cs)));
    ShareOfDraws(w, m, Total(cs), DrawSum(cs, xs, Total(cs)), Prob(admits, cs, r));
  }

  // ---- No candidate is legal

  lemma {:induction false} ConstantDraws(cs: seq<Candidate>, xs: seq<real>, n: nat, x: real)
    requires |xs| == |cs| && n <= Total(cs)
    requires forall j | 0 <= j < |xs| :: xs[j] == x
    ensures DrawSum(cs, xs, n) == Multiple(n, x)
    decreases n
  {
    if n > 0 {
      ConstantDraws(cs, xs, n - 1, x);
    }
  }

  lemma ConstantAverage(cs: seq<Candidate>, xs: seq<real>, t: nat, x: real)
    requires |xs| == |cs| && t == Total(cs) > 0
    requires forall j | 0 <= j < |xs| :: xs[j] == x
    ensures DrawSum(cs, xs, t) / t as real == x
  {
    ConstantDraws(cs, xs, t, x);
    MultipleOfQuotient(t, Multiple(t, x));
    EqualMultiples(t, Multiple(t, x) / t as real, x);
  }

  lemma {:induction false} NothingLegal(admits: TokenClass -> bool, cs: seq<Candidate>, r: Option<TokenClass>, x: real)
    requires Positive(cs) && Sum(Legal(admits), cs) == 0 && x == (if r == None then 1.0 else 0.0)
    ensures Prob(admits, cs, r) == x
    decreases |cs|
  {
    if cs != [] {
      var xs := Chances(admits, cs, r);
      forall j | 0 <= j < |cs|
        ensures xs[j] == x
      {
        SumSwapRemove(Legal(admits), cs, j);
        NothingLegal(admits, SwapRemove(cs, j), r, x);
      }
      PositiveTotal(cs);
      ConstantAverage(cs, xs, Total(cs), x);
    }
  }

  // ---- The published distribution

  ghost predicate Agrees(admits: TokenClass -> bool, legal: set<TokenClass>) {
    forall c: TokenClass :: admits(c) <==> c in legal
  }

  lemma AppendIf(m: Measure, cs: seq<Candidate>, k: Candidate, wanted: bool)
    ensures Sum(m, cs + if wanted then [k] else []) == Sum(m, cs) + if wanted then Count(m, k) else 0
  {
    if wanted {
      assert (cs + [k])[..|cs|] == cs;
    } else {
      assert cs + [] == cs;
    }
  }

  lemma WeightedNext(m: Measure, ws: seq<nat>, n: nat)
    requires n < |ws| == CLASS_COUNT
    ensures Sum(m, Weighted(ws, n + 1)) == Sum(m, Weighted(ws, n)) + Count(m, Candidate(n, ws[n]))
  {
    AppendIf(m, Weighted(ws, n), Candidate(n, ws[n]), ws[n] > 0);
  }

  lemma LegalWeightedNext(ws: seq<nat>, legal: set<TokenClass>, n: nat)
    requires n < |ws| == CLASS_COUNT
    ensures Total(LegalWeighted(ws, legal, n + 1)) ==
            Total(LegalWeighted(ws, legal, n)) + if n in legal then ws[n] else 0
  {
    AppendIf(All, LegalWeighted(ws, legal, n), Candidate(n, ws[n]), n in legal && ws[n] > 0);
  }

  lemma {:induction false} LegalWeightedSum(admits: TokenClass -> bool, ws: seq<nat>, legal: set<TokenClass>, n: nat)
    requires n <= |ws| == CLASS_COUNT && Agrees(admits, legal)
    ensures Total(LegalWeighted(ws, legal, n)) == Sum(Legal(admits), Weighted(ws, n))
    decreases n
  {
    if n > 0 {
      LegalWeightedSum(admits, ws, legal, n - 1);
      LegalWeightedNext(ws, legal, n - 1);
      WeightedNext(Legal(admits), ws, n - 1);
    }
  }

  lemma CountOwn(admits: TokenClass -> bool, k: Candidate, c: TokenClass, n: nat)
    requires n == Count(For(admits, Some(c)), k)
    ensures n == if k.kind == c && admits(c) then k.weight else 0
  {
  }

  /** A class carries its own weight once. */
  lemma {:induction false} OwnWeight(
      admits: TokenClass -> bool, m: Measure, ws: seq<nat>, n: nat, c: TokenClass, own: nat)
    requires n <= |ws| == CLASS_COUNT && m == For(admits, Some(c)) && own == Sum(m, Weighted(ws, n))
    ensures own == if c < n && admits(c) then ws[c] else 0
    decreases n
  {
    if n > 0 {
      OwnWeight(admits, m, ws, n - 1, c, Sum(m, Weighted(ws, n - 1)));
      WeightedNext(m, ws, n - 1);
      CountOwn(admits, Candidate(n - 1, ws[n - 1]), c, Count(m, Candidate(n - 1, ws[n - 1])));
    }
  }

  lemma {:induction false} NoneHasNoWeight(admits: TokenClass -> bool, cs: seq<Candidate>)
    ensures Sum(For(admits, None), cs) == 0
  {
    if cs != [] {
      NoneHasNoWeight(admits, cs[..|cs| - 1]);
    }
  }

  function Share(weight: nat, total: nat): (p: real)
    requires total > 0
  {
    weight as real / total as real
  }

  lemma ShareOfMultiple(w: nat, p: real, m: nat)
    requires w > 0 && Multiple(w, p) == m as real
    ensures p == Share(m, w)
  {
    MultipleOfQuotient(w, m as real);
    EqualMultiples(w, p, m as real / w as real);
  }

  /** What the chances of nothing and of one class must be, given the weight the class carries in
      a distribution of some total weight. */
  ghost predicate Published(none: real, some: real, weight: nat, total: nat) {
    if total > 0 then none == 0.0 && some == Share(weight, total) else none == 1.0 && some == 0.0
  }

  lemma LegalDraws(
      admits: TokenClass -> bool, cs: seq<Candidate>, total: nat, c: TokenClass, own: nat, none: real, some: real)
    requires Positive(cs) && total == Sum(Legal(admits), cs) > 0 && own == Sum(For(admits, Some(c)), cs)
    requires none == Prob(admits, cs, None) && some == Prob(admits, cs, Some(c))
    ensures Published(none, some, own, total)
  {
    NoneHasNoWeight(admits, cs);
    ProportionalDraw(admits, cs, None, total, 0);
    ShareOfMultiple(total, none, 0);
    ProportionalDraw(admits, cs, Some(c), total, own);
    ShareOfMultiple(total, some, own);
  }

  lemma WeightedDraws(
      admits: TokenClass -> bool, ws: seq<nat>, legal: set<TokenClass>, total: nat, c: TokenClass, none: real,
      some: real)
    requires |ws| == CLASS_COUNT && Agrees(admits, legal) && total == Total(LegalWeighted(ws, legal, |ws|))
    requires none == Prob(admits, Weighted(ws, |ws|), None)
    requires some == Prob(admits, Weighted(ws, |ws|), Some(c))
    ensures Published(none, some, if c in legal then ws[c] else 0, total)
  {
    LegalWeightedSum(admits, ws, legal, |ws|);
    if total > 0 {
      var own := Sum(For(admits, Some(c)), Weighted(ws, |ws|));
      OwnWeight(admits, For(admits, Some(c)), ws, |ws|, c, own);
      LegalDraws(admits, Weighted(ws, |ws|), total, c, own, none, some);
    } else {
      NothingLegal(admits, Weighted(ws, |ws|), None, 1.0);
      NothingLegal(admits, Weighted(ws, |ws|), Some(c), 0.0);
    }
  }

  /** The sampler draws from exactly the distribution that is published for scoring: a legal class
      with probability its weight over the total, an illegal one never, and nothing at all just
      when the distribution is empty. */
  lemma PickDrawsFromDistribution(
      admits: TokenClass -> bool, t: Tables, legal: set<TokenClass>, emitted: nat, depth: nat, c: TokenClass,
      none: real, some: real)
    requires t.softness > 0 && Agrees(admits, legal)
    requires none == Prob(admits, Candidates(t, emitted, depth), None)
    requires some == Prob(admits, Candidates(t, emitted, depth), Some(c))
    ensures Published(
              none, some, if c in legal then Weight(t, c, emitted, depth) else 0,
              Total(Distribution(t, legal, emitted, depth)))
  {
    WeightedDraws(
      admits, Weights(t, emitted, depth), legal, Total(Distribution(t, legal, emitted, depth)), c, none, some);
  }

  // ---- By weight, not uniformly

  lemma EqualShares(m: nat, m': nat, total: nat)
    requires total > 0
    ensures Share(m, total) == Share(m', total) <==> m == m'
  {
    MultipleOfQuotient(total, m as real);
    MultipleOfQuotient(total, m' as real);
  }

  /** Two legal classes are equally likely if and only if they weigh the same. */
  lemma EquallyLikelyIff(
      admits: TokenClass -> bool, t: Tables, legal: set<TokenClass>, emitted: nat, depth: nat,
      c: TokenClass, d: TokenClass, p: real, q: real)
    requires t.softness > 0 && Agrees(admits, legal) && c in legal && d in legal
    requires Total(Distribution(t, legal, emitted, depth)) > 0
    requires p == Prob(admits, Candidates(t, emitted, depth), Some(c))
    requires q == Prob(admits, Candidates(t, emitted, depth), Some(d))
    ensures p == q <==> Weight(t, c, emitted, depth) == Weight(t, d, emitted, depth)
  {
    var none := Prob(admits, Candidates(t, emitted, depth), None);
    PickDrawsFromDistribution(admits, t, legal, emitted, depth, c, none, p);
    PickDrawsFromDistribution(admits, t, legal, emitted, depth, d, none, q);
    EqualShares(
      Weight(t, c, emitted, depth), Weight(t, d, emitted, depth), Total(Distribution(t, legal, emitted, depth)));
  }

  /** Every legal class is as likely as every other. */
  ghost predicate Uniform(
      admits: TokenClass -> bool, t: Tables, legal: set<TokenClass>, emitted: nat, depth: nat)
    requires t.softness > 0
  {
    var cs := Candidates(t, emitted, depth);
    forall c, d | c in legal && d in legal :: Prob(admits, cs, Some(c)) == Prob(admits, cs, Some(d))
  }

  /** The pick is uniform over the legal classes if and only if they all weigh the same. */
  lemma UniformIff(admits: TokenClass -> bool, t: Tables, legal: set<TokenClass>, emitted: nat, depth: nat)
    requires t.softness > 0 && Agrees(admits, legal) && Total(Distribution(t, legal, emitted, depth)) > 0
    ensures Uniform(admits, t, legal, emitted, depth) <==>
            forall c, d | c in legal && d in legal :: Weight(t, c, emitted, depth) == Weight(t, d, emitted, depth)
  {
    var cs := Candidates(t, emitted, depth);
    forall c, d | c in legal && d in legal
      ensures Prob(admits, cs, Some(c)) == Prob(admits, cs, Some(d)) <==>
              Weight(t, c, emitted, depth) == Weight(t, d, emitted, depth)
    {
      EquallyLikelyIff(
        admits, t, legal, emitted, depth, c, d, Prob(admits, cs, Some(c)), Prob(admits, cs, Some(d)));
    }
  }

  lemma {:induction false} LegalWeightedHolds(ws: seq<nat>, legal: set<TokenClass>, n: nat, c: TokenClass)
    requires c < n <= |ws| == CLASS_COUNT && c in legal
    ensures Total(LegalWeighted(ws, legal, n)) >= ws[c]
    decreases n
  {
    LegalWeightedNext(ws, legal, n - 1);
    if c < n - 1 {
      LegalWeightedHolds(ws, legal, n - 1, c);
    }
  }

  /** Under the default policy no class ever weighs what the end does. */
  lemma EndWeighsApart(c: TokenClass, emitted: nat, depth: nat)
    requires c != EOF
    ensures Weight(DEFAULT, c, emitted, depth) != Weight(DEFAULT, EOF, emitted, depth) > 0
  {
    assert DEFAULT.base[c] == 8 && DEFAULT.base[EOF] == 2;
    WeighsApart(c, Pressure(DEFAULT, emitted, depth));
  }

  lemma WeighsApart(c: TokenClass, p: nat)
    requires c != EOF && 0 < p <= PRESSURE_CAP
    ensures Weigh(c, 8, p) != Weigh(EOF, 2, p) > 0
  {
    if p > 1 && !Finishes(c) {
      SquareGrows(2, p);
      DivShrinks(8192, 4, p * p);
      DivShrinks(8192, 4, p * p * p);
    }
  }

  /** The default policy never picks uniformly when the end and another class are legal, however
      long or deep the walk. */
  lemma DefaultIsNotUniform(
      admits: TokenClass -> bool, legal: set<TokenClass>, c: TokenClass, emitted: nat, depth: nat)
    requires Agrees(admits, legal) && EOF in legal && c in legal && c != EOF
    ensures !Uniform(admits, DEFAULT, legal, emitted, depth)
  {
    var ws := Weights(DEFAULT, emitted, depth);
    EndWeighsApart(c, emitted, depth);
    LegalWeightedHolds(ws, legal, |ws|, EOF);
    UniformIff(admits, DEFAULT, legal, emitted, depth);
  }

  // ---- Word size

  function BaseSum(base: seq<nat>): (n: nat) {
    if base == [] then 0 else BaseSum(base[..|base| - 1]) + base[|base| - 1]
  }

  const LARGEST: nat := WEIGHT_SCALE * PRESSURE_CAP

  lemma TotalNext(ws: seq<nat>, n: nat)
    requires n < |ws| == CLASS_COUNT
    ensures Total(Weighted(ws, n + 1)) == Total(Weighted(ws, n)) + ws[n]
  {
    WeightedNext(All, ws, n);
  }

  lemma BaseSumNext(base: seq<nat>, n: nat)
    requires n < |base|
    ensures BaseSum(base[..n + 1]) == BaseSum(base[..n]) + base[n]
  {
    assert base[..n + 1][..n] == base[..n];
  }

  lemma {:induction false} TotalBounded(ws: seq<nat>, base: seq<nat>, scale: nat, n: nat)
    requires |ws| == |base| == CLASS_COUNT && n <= CLASS_COUNT
    requires forall c | 0 <= c < CLASS_COUNT :: ws[c] <= base[c] * scale
    ensures Total(Weighted(ws, n)) <= BaseSum(base[..n]) * scale
    decreases n
  {
    if n > 0 {
      TotalBounded(ws, base, scale, n - 1);
      TotalNext(ws, n - 1);
      BaseSumNext(base, n - 1);
      BothBounded(Total(Weighted(ws, n - 1)), BaseSum(base[..n - 1]), ws[n - 1], base[n - 1], scale);
    }
  }

  lemma BothBounded(x: nat, a: nat, y: nat, b: nat, scale: nat)
    requires x <= a * scale && y <= b * scale
    ensures x + y <= (a + b) * scale
  {
  }

  lemma {:induction false} DefaultBase(n: nat)
    requires n < CLASS_COUNT
    ensures BaseSum(DEFAULT.base[..n]) == 8 * n
  {
    if n > 0 {
      DefaultBase(n - 1);
      assert DEFAULT.base[..n][..n - 1] == DEFAULT.base[..n - 1];
    }
  }

  /** A policy whose base weights add up to less than 2^18 never draws from a total beyond 32 bits. */
  lemma TotalFits(t: Tables, emitted: nat, depth: nat)
    requires t.softness > 0 && BaseSum(t.base) < 0x4_0000
    ensures Total(Candidates(t, emitted, depth)) < TWO_32
  {
    var ws := Weights(t, emitted, depth);
    forall c | 0 <= c < CLASS_COUNT
      ensures ws[c] <= t.base[c] * LARGEST
    {
      WeightBounded(c, t.base[c], Pressure(t, emitted, depth));
    }
    TotalBounded(ws, t.base, LARGEST, |ws|);
    assert t.base[..CLASS_COUNT] == t.base;
  }

  lemma DefaultSum()
    ensures BaseSum(DEFAULT.base) < 0x4_0000
  {
    DefaultBase(CLASS_COUNT - 1);
    assert DEFAULT.base[..CLASS_COUNT - 1] + [2] == DEFAULT.base;
  }

  lemma DefaultTotalFits(emitted: nat, depth: nat)
    ensures Total(Candidates(DEFAULT, emitted, depth)) < TWO_32
  {
    DefaultSum();
    TotalFits(DEFAULT, emitted, depth);
  }
}
