/** The sampler's policy: how likely each token class is as a walk grows (babble/src/lib.rs). */
module BabbleTables {
  import opened Words

  const CLASS_COUNT: nat := 60

  /** A token class, by discriminant. */
  type TokenClass = c: nat | c < CLASS_COUNT

  const MATCH: TokenClass := 18
  const HANDLE: TokenClass := 19
  const WITHOUT: TokenClass := 21
  const IF: TokenClass := 25
  const L_PAREN: TokenClass := 49
  const R_PAREN: TokenClass := 50
  const L_BRACE: TokenClass := 51
  const R_BRACE: TokenClass := 52
  const L_BRACKET: TokenClass := 53
  const R_BRACKET: TokenClass := 54
  const EOF: TokenClass := 59

  predicate IsOpener(c: TokenClass) { c == L_PAREN || c == L_BRACE || c == L_BRACKET }

  predicate IsCloser(c: TokenClass) { c == R_PAREN || c == R_BRACE || c == R_BRACKET }

  predicate IsObligation(c: TokenClass) { IsOpener(c) || c == MATCH || c == HANDLE || c == WITHOUT || c == IF }

  /** Closers and the end of the program: what a walk is pushed towards. */
  predicate Finishes(c: TokenClass) { IsCloser(c) || c == EOF }

  datatype Policy = Policy(base: seq<nat>, softness: nat, depthWeight: nat, windDown: nat)

  /** A policy has a 16-bit weight for each class. */
  type Tables = t: Policy | |t.base| == CLASS_COUNT && forall i | 0 <= i < CLASS_COUNT :: t.base[i] < 0x1_0000
    witness Policy(seq(CLASS_COUNT, _ => 0), 0, 0, 0)

  const DEFAULT: Tables := Policy(seq(CLASS_COUNT, c => if c == EOF then 2 else 8), 12, 12, 24)

  datatype Verdict = Usable | ZeroSoftness | CannotTerminate | CannotClose

  function Validate(t: Tables): (v: Verdict) {
    if t.softness == 0 then ZeroSoftness
    else if t.base[EOF] == 0 then CannotTerminate
    else if t.base[R_PAREN] == 0 || t.base[R_BRACE] == 0 || t.base[R_BRACKET] == 0 then CannotClose
    else Usable
  }

  const WEIGHT_SCALE: nat := 1024
  const PRESSURE_CAP: nat := 16

  function Pressure(t: Tables, emitted: nat, depth: nat): (p: nat)
    requires t.softness > 0
    ensures 1 <= p <= PRESSURE_CAP
  {
    Min(1 + (emitted + depth * t.depthWeight) / t.softness, PRESSURE_CAP)
  }

  /** A base weight under pressure. */
  function Weigh(c: TokenClass, base: nat, pressure: nat): (w: nat)
    requires pressure > 0
  {
    var scaled := base * WEIGHT_SCALE;
    if base == 0 then 0
    else if Finishes(c) then scaled * pressure
    else if IsObligation(c) then Max(scaled / (pressure * pressure * pressure), 1)
    else Max(scaled / (pressure * pressure), 1)
  }

  function Weight(t: Tables, c: TokenClass, emitted: nat, depth: nat): (w: nat)
    requires t.softness > 0
  {
    Weigh(c, t.base[c], Pressure(t, emitted, depth))
  }

  // ---- What the weights promise

  lemma DivShrinks(x: nat, a: nat, b: nat)
    requires 0 < a <= b
    ensures x / b <= x / a
  {
    var q := x / b;
    MulGrows(a, b, q);
    QuotientAtLeast(x, a, q);
  }

  lemma SquareGrows(p: nat, q: nat)
    requires 0 < p <= q
    ensures 0 < p * p <= q * q && 0 < p * p * p <= q * q * q
  {
    MulGrows(p, q, p);
    MulGrows(p, q, q);
    MulGrows(p * p, q * q, p);
    MulGrows(p, q, q * q);
  }

  /** Rising pressure never makes finishing less likely or going on more likely. */
  lemma PressureBends(c: TokenClass, base: nat, p: nat, q: nat)
    requires 0 < p <= q
    ensures if Finishes(c) then Weigh(c, base, p) <= Weigh(c, base, q) else Weigh(c, base, q) <= Weigh(c, base, p)
  {
    SquareGrows(p, q);
    var scaled := base * WEIGHT_SCALE;
    DivShrinks(scaled, p * p, q * q);
    DivShrinks(scaled, p * p * p, q * q * q);
  }

  /** Length and nesting both raise the pressure. */
  lemma PressureGrows(t: Tables, emitted: nat, depth: nat, emitted': nat, depth': nat)
    requires t.softness > 0 && emitted <= emitted' && depth <= depth'
    ensures Pressure(t, emitted, depth) <= Pressure(t, emitted', depth')
  {
    var x, y := emitted + depth * t.depthWeight, emitted' + depth' * t.depthWeight;
    assert depth * t.depthWeight <= depth' * t.depthWeight;
    assert x / t.softness <= y / t.softness by { QuotientGrows(x, y, t.softness); }
  }

  /** As a walk grows longer and deeper its weights bend towards the finish. */
  lemma WalkBends(t: Tables, c: TokenClass, emitted: nat, depth: nat, emitted': nat, depth': nat)
    requires t.softness > 0 && emitted <= emitted' && depth <= depth'
    ensures var w, w' := Weight(t, c, emitted, depth), Weight(t, c, emitted', depth');
            if Finishes(c) then w <= w' else w' <= w
  {
    PressureGrows(t, emitted, depth, emitted', depth');
    PressureBends(c, t.base[c], Pressure(t, emitted, depth), Pressure(t, emitted', depth'));
  }

  /** Under any pressure at all, and from a base of 8, obligations, extenders and finishers stay
      in a strict order up to the cap: no division bottoms out at the floor of 1. */
  lemma StrictOrder(obligation: TokenClass, extender: TokenClass, finisher: TokenClass, base: nat, p: nat)
    requires IsObligation(obligation) && Finishes(finisher) && !IsObligation(extender) && !Finishes(extender)
    requires base >= 8 && 2 <= p <= PRESSURE_CAP
    ensures 1 < Weigh(obligation, base, p) < Weigh(extender, base, p) < Weigh(finisher, base, p)
  {
    var x := base * WEIGHT_SCALE;
    OrderOfThree(x, p);
    MulGrows(1, p, x);
    DivShrinks(x, 1, p * p);
  }

  lemma OrderOfThree(x: nat, p: nat)
    requires x >= 8192 && 2 <= p <= PRESSURE_CAP
    ensures 0 < p * p && 0 < p * p * p
    ensures 1 < x / (p * p * p) < x / (p * p) < x * p
  {
    SquareGrows(p, PRESSURE_CAP);
    SquareGrows(2, p);
    SplitOrder(x, p * p, p, p * p * p);
    MulGrows(2, p, x);
  }

  lemma SplitOrder(x: nat, a: nat, p: nat, cube: nat)
    requires x >= 8192 && 2 <= p && 4 <= a && cube == a * p <= 4096
    ensures 1 < x / cube < x / a < x
  {
    DivShrinks(x, cube, 4096);
    MulGrows(2, p, a);
    DivShrinks(x, 2 * a, cube);
    HalfIsLess(x, a);
    DivShrinks(x, 4, a);
  }

  lemma HalfIsLess(x: nat, a: nat)
    requires a > 0 && x / (2 * a) > 0
    ensures x / (2 * a) < x / a
  {
    var q := x / (2 * a);
    assert (2 * q) * a == q * (2 * a);
    QuotientAtLeast(x, a, 2 * q);
  }

  lemma WeighPositive(c: TokenClass, base: nat, p: nat)
    requires p > 0
    ensures Weigh(c, base, p) > 0 <==> base > 0
  {
    if base > 0 { MulGrows(1, base * WEIGHT_SCALE, p); }
  }

  /** A class is drawable exactly when its base weight is not zero. */
  lemma DrawableIffBased(t: Tables, c: TokenClass, emitted: nat, depth: nat)
    requires t.softness > 0
    ensures Weight(t, c, emitted, depth) > 0 <==> t.base[c] > 0
  {
    WeighPositive(c, t.base[c], Pressure(t, emitted, depth));
  }

  lemma WeightBounded(c: TokenClass, base: nat, p: nat)
    requires 0 < p <= PRESSURE_CAP
    ensures Weigh(c, base, p) <= base * (WEIGHT_SCALE * PRESSURE_CAP)
  {
    var x := base * WEIGHT_SCALE;
    SquareGrows(1, p);
    DivShrinks(x, 1, p * p);
    DivShrinks(x, 1, p * p * p);
    MulGrows(p, PRESSURE_CAP, x);
    assert x / 1 == x;
  }

  /** A policy is usable just when pressure is defined and the end and every closer can always be
      drawn, however long or deep the walk. */
  lemma UsableIffCanFinish(t: Tables)
    ensures Validate(t) == Usable <==>
            t.softness > 0 && forall c: TokenClass, emitted, depth | Finishes(c) :: Weight(t, c, emitted, depth) > 0
  {
    if t.softness > 0 {
      forall c: TokenClass, emitted, depth
        ensures Weight(t, c, emitted, depth) > 0 <==> t.base[c] > 0
      {
        DrawableIffBased(t, c, emitted, depth);
      }
      assert Finishes(EOF) && Finishes(R_PAREN) && Finishes(R_BRACE) && Finishes(R_BRACKET);
      assert Weight(t, EOF, 0, 0) > 0 <==> t.base[EOF] > 0;
      assert Weight(t, R_PAREN, 0, 0) > 0 <==> t.base[R_PAREN] > 0;
      assert Weight(t, R_BRACE, 0, 0) > 0 <==> t.base[R_BRACE] > 0;
      assert Weight(t, R_BRACKET, 0, 0) > 0 <==> t.base[R_BRACKET] > 0;
    }
  }

  /** What is wrong with a policy that does not validate, in the order it is looked for. */
  lemma ValidateSays(t: Tables)
    ensures Validate(t) == ZeroSoftness <==> t.softness == 0
    ensures Validate(t) == CannotTerminate <==> t.softness > 0 && Weight(t, EOF, 0, 0) == 0
    ensures Validate(t) == CannotClose <==>
            && t.softness > 0 && Weight(t, EOF, 0, 0) > 0
            && exists c: TokenClass | c in {50, 52, 54} :: Weight(t, c, 0, 0) == 0
  {
    if t.softness > 0 {
      DrawableIffBased(t, EOF, 0, 0);
      DrawableIffBased(t, R_PAREN, 0, 0);
      DrawableIffBased(t, R_BRACE, 0, 0);
      DrawableIffBased(t, R_BRACKET, 0, 0);
    }
  }

  // ---- The weights in plain numbers

  /** Which classes are which, by discriminant: `)`, `}`, `]` and the end finish; `match`,
      `handle`, `without`, `if`, `(`, `{` and `[` oblige. */
  lemma ClassesAre(c: TokenClass)
    ensures Finishes(c) <==> c in {50, 52, 54, 59}
    ensures IsCloser(c) <==> c in {50, 52, 54}
    ensures IsObligation(c) <==> c in {18, 19, 21, 25, 49, 51, 53}
  {
  }

  /** `w` is `x` over `d` in whole numbers, and 1 if that is less. */
  ghost predicate OverAtLeastOne(w: nat, x: nat, d: nat) {
    if x < d then w == 1 else w * d <= x < (w + 1) * d
  }

  lemma DividesTo(x: nat, d: nat)
    requires d > 0
    ensures OverAtLeastOne(Max(x / d, 1), x, d)
  {
    var q := x / d;
    assert q * d <= x < (q + 1) * d;
    if x >= d {
      MulGrows(1, q, d);
    }
  }

  /** What a class weighs under a pressure: 1024 times its base, times the pressure if it
      finishes, over its cube if it obliges and over its square otherwise. */
  lemma WeighIs(c: TokenClass, base: nat, p: nat)
    requires p > 0
    ensures base == 0 ==> Weigh(c, base, p) == 0
    ensures base > 0 ==>
              if c in {50, 52, 54, 59} then Weigh(c, base, p) == 1024 * base * p
              else if c in {18, 19, 21, 25, 49, 51, 53} then OverAtLeastOne(Weigh(c, base, p), 1024 * base, p * p * p)
              else OverAtLeastOne(Weigh(c, base, p), 1024 * base, p * p)
  {
    ClassesAre(c);
    SquareGrows(1, p);
    DividesTo(1024 * base, p * p);
    DividesTo(1024 * base, p * p * p);
  }

  /** Pressure is 1 at first, one more for every `softness` tokens up to 16, and a level of
      nesting counts for `depthWeight` tokens. */
  lemma PressureIs(t: Tables, emitted: nat, depth: nat, levels: nat)
    requires t.softness > 0
    ensures emitted < t.softness ==> Pressure(t, emitted, 0) == 1
    ensures Pressure(t, emitted + t.softness, depth) == Min(Pressure(t, emitted, depth) + 1, 16)
    ensures Pressure(t, emitted, depth + levels) == Pressure(t, emitted + levels * t.depthWeight, depth)
  {
    if emitted < t.softness { QuotientIs(emitted, t.softness, 0); }
    OneMore(emitted + depth * t.depthWeight, t.softness);
    Levels(emitted, depth, levels, t.depthWeight);
  }

  lemma Levels(emitted: nat, depth: nat, levels: nat, weight: nat)
    ensures emitted + (depth + levels) * weight == emitted + levels * weight + depth * weight
  {
  }

  lemma QuotientIs(x: nat, d: nat, q: nat)
    requires d > 0 && q * d <= x < (q + 1) * d
    ensures x / d == q
  {
    QuotientAtLeast(x, d, q);
    MulGrows(q + 1, x / d, d);
  }

  lemma OneMore(x: nat, d: nat)
    requires d > 0
    ensures (x + d) / d == x / d + 1
  {
    var q := x / d;
    assert (q + 1) * d == q * d + d && (q + 2) * d == q * d + d + d && q * d <= x < q * d + d;
    QuotientIs(x + d, d, q + 1);
  }

  /** The first pick of a program under the default policy; pressure that rises with the twelfth
      token or the first level, and a wind-down from the twenty-fourth token. */
  lemma DefaultStarts(c: TokenClass)
    ensures Weight(DEFAULT, c, 0, 0) == if c == 59 then 2048 else 8192
    ensures Pressure(DEFAULT, 11, 0) == 1 && Pressure(DEFAULT, 12, 0) == 2
    ensures Pressure(DEFAULT, 0, 1) == 2 && Pressure(DEFAULT, 11, 1) == 2 && Pressure(DEFAULT, 12, 1) == 3
    ensures DEFAULT.windDown == 24
  {
    assert DEFAULT.base[c] == if c == EOF then 2 else 8;
    assert Weight(DEFAULT, c, 0, 0) == Weigh(c, DEFAULT.base[c], 1);
  }

  /** The pressure as 32-bit arithmetic that wraps around would have it. */
  function WrappedPressure(t: Tables, emitted: nat, depth: nat): (p: nat)
    requires t.softness > 0
  {
    var urge := Wrap(emitted + Wrap(depth * t.depthWeight));
    Min(Wrap(1 + urge / t.softness), PRESSURE_CAP)
  }

  function Wrap(x: nat): (r: nat)
    ensures x < TWO_32 ==> r == x
  {
    x % TWO_32
  }

  /** Nothing wraps while length and nesting together stay below 2^32 - 1. */
  lemma PressureFits(t: Tables, emitted: nat, depth: nat)
    requires t.softness > 0 && emitted + depth * t.depthWeight < TWO_32 - 1
    ensures WrappedPressure(t, emitted, depth) == Pressure(t, emitted, depth)
  {
    QuotientFits(emitted + depth * t.depthWeight, t.softness);
  }

  lemma QuotientFits(x: nat, d: nat)
    requires d > 0
    ensures x / d <= x
  {
    DivShrinks(x, 1, d);
    assert x / 1 == x;
  }
}
