/** Answering a completion request in the caller's buffer (babble/src/serve.rs). */
module BabbleServe {
  import opened Words
  import opened Utf8
  import opened BabbleTables
  import opened BabbleSampler
  import opened BabbleWalk
  import opened BabbleProofs

  datatype Reply = Reply(ok: bool, written: u32)

  const MALFORMED := Reply(false, 0)

  /** The longest of the first `n` token boundaries that fits in `cap` bytes. */
  function CutBelow(w: Walk, cap: nat, n: nat): (cut: Option<nat>)
    requires n <= |w.steps| + 1
  {
    if n == 0 then None
    else
      var best, len := CutBelow(w, cap, n - 1), |Boundary(w, n - 1)|;
      if len <= cap && (best.None? || best.value <= len) then Some(len) else best
  }

  /** Where a walk is cut to fit, with the fallback for a walk no boundary of which does. */
  function CutAt(w: Walk, cap: nat, fallback: nat): (cut: nat) {
    var best := CutBelow(w, cap, |w.steps| + 1);
    if best.Some? then best.value else fallback
  }

  /** No boundary before the `n`th that fits is longer than `cut`. */
  ghost predicate NoneLonger(w: Walk, cap: nat, n: nat, cut: nat)
    requires n <= |w.steps| + 1
  {
    forall j | 0 <= j < n :: |Boundary(w, j)| <= cut || |Boundary(w, j)| > cap
  }

  /** `cut` is a boundary of the walk that fits, and none that fits is longer. */
  ghost predicate Longest(w: Walk, cap: nat, n: nat, i: nat, cut: nat)
    requires n <= |w.steps| + 1
  {
    i < n && cut == |Boundary(w, i)| <= cap && NoneLonger(w, cap, n, cut)
  }

  /** `best` is the longest of the first `n` boundaries that fits, the `i`th of them, or none does. */
  ghost predicate Decides(w: Walk, cap: nat, n: nat, best: Option<nat>, i: nat)
    requires n <= |w.steps| + 1
  {
    match best
    case None => forall j | 0 <= j < n :: |Boundary(w, j)| > cap
    case Some(cut) => Longest(w, cap, n, i, cut)
  }

  lemma DecidesNext(w: Walk, cap: nat, n: nat, best: Option<nat>, i: nat, len: nat)
    requires n <= |w.steps| && Decides(w, cap, n, best, i) && len == |Boundary(w, n)|
    ensures if len <= cap && (best.None? || best.value <= len) then Decides(w, cap, n + 1, Some(len), n)
            else Decides(w, cap, n + 1, best, i)
  {
  }

  lemma {:induction false} CutIsLongest(w: Walk, cap: nat, n: nat) returns (i: nat)
    requires n <= |w.steps| + 1
    ensures Decides(w, cap, n, CutBelow(w, cap, n), i)
  {
    i := 0;
    if n > 0 {
      i := CutIsLongest(w, cap, n - 1);
      var best, len := CutBelow(w, cap, n - 1), |Boundary(w, n - 1)|;
      DecidesNext(w, cap, n - 1, best, i, len);
      if len <= cap && (best.None? || best.value <= len) {
        i := n - 1;
      }
    }
  }

  /** Every boundary of a legal walk begins the source it ends with. */
  lemma BoundaryBegins(g: Grammar, prefix: Text, w: Walk, i: nat)
    requires (Open(g, prefix, w) || Closed(g, prefix, w)) && i <= |w.steps|
    ensures prefix <= Boundary(w, i) <= w.source
  {
    if Open(g, prefix, w) {
      BoundariesExtend(g, prefix, w, 0, i);
      BoundariesExtend(g, prefix, w, i, |w.steps|);
    } else {
      var j := Min(i, |w.steps| - 1);
      assert Boundary(w, i) == Boundary(Body(w), j);
      BoundariesExtend(g, prefix, Body(w), 0, j);
      BoundariesExtend(g, prefix, Body(w), j, |w.steps| - 1);
    }
  }

  /** What is served: after `i` whole tokens, the most that fit. The text served is itself a
      legal walk from the prefix, so it can still be extended as the whole walk was. */
  ghost predicate Served(g: Grammar, prefix: Text, w: Walk, cap: nat, i: nat, cut: nat) {
    && Longest(w, cap, |w.steps| + 1, i, cut)
    && |prefix| <= cut <= |w.source| && w.source[..cut] == Boundary(w, i) && prefix <= w.source[..cut]
    && (cut == |w.source| || Open(g, prefix, Walk(Boundary(w, i), w.steps[..i])))
  }

  /** A prefix that fits its buffer is always a boundary that fits, so the fallback is never taken. */
  lemma CutIsServed(g: Grammar, prefix: Text, w: Walk, cap: nat) returns (i: nat)
    requires (Open(g, prefix, w) || Closed(g, prefix, w)) && |prefix| <= cap
    ensures CutBelow(w, cap, |w.steps| + 1).Some?
    ensures Served(g, prefix, w, cap, i, CutAt(w, cap, |prefix|))
  {
    i := CutIsLongest(w, cap, |w.steps| + 1);
    BoundaryBegins(g, prefix, w, 0);
    assert Boundary(w, 0) == prefix by {
      if !Open(g, prefix, w) {
        assert Boundary(w, 0) == Boundary(Body(w), 0);
      }
    }
    BoundaryBegins(g, prefix, w, i);
    CutIsOpen(g, prefix, w, i);
  }

  lemma CutIsOpen(g: Grammar, prefix: Text, w: Walk, i: nat)
    requires (Open(g, prefix, w) || Closed(g, prefix, w)) && i <= |w.steps|
    ensures Boundary(w, i) == w.source || Open(g, prefix, Walk(Boundary(w, i), w.steps[..i]))
  {
    if Open(g, prefix, w) {
      OpenCut(g, prefix, w, i);
    } else if i < |w.steps| {
      OpenCut(g, prefix, Body(w), i);
      assert Boundary(w, i) == Boundary(Body(w), i) && Body(w).steps[..i] == w.steps[..i];
    }
  }

  /** A smaller buffer's answer begins a larger buffer's, both at token boundaries. */
  lemma SmallerBufferNests(g: Grammar, prefix: Text, w: Walk, cap: nat, cap': nat)
    requires (Open(g, prefix, w) || Closed(g, prefix, w)) && |prefix| <= cap <= cap'
    ensures var cut, cut' := CutAt(w, cap, |prefix|), CutAt(w, cap', |prefix|);
            cut <= cut' <= |w.source| && w.source[..cut] <= w.source[..cut']
  {
    var i := CutIsServed(g, prefix, w, cap);
    var i' := CutIsServed(g, prefix, w, cap');
  }

  // ---- Word size

  const LONG_LEXEME: nat := 0x100_0000

  lemma {:induction false} BoundaryLength(g: Grammar, prefix: Text, w: Walk, i: nat)
    requires Open(g, prefix, w) && i <= |w.steps|
    requires forall c: TokenClass, number: nat :: |g.lexeme(c, number)| < LONG_LEXEME
    ensures |Boundary(w, i)| <= |prefix| + i * LONG_LEXEME
    decreases i
  {
    if i > 0 {
      BoundaryLength(g, prefix, w, i - 1);
      assert LegalStep(g, w, i - 1);
    }
  }

  /** With lexemes of any ordinary length the count of written bytes fits its 32 bits. */
  lemma WrittenFits(g: Grammar, prefix: Text, k: nat, w: Walk)
    requires Fragment(g, prefix, k, w)
    requires forall c: TokenClass, number: nat :: |g.lexeme(c, number)| < LONG_LEXEME
    ensures |w.source| - |prefix| < TWO_32
  {
    if Open(g, prefix, w) {
      BoundaryLength(g, prefix, w, |w.steps|);
    } else {
      BoundaryLength(g, prefix, Body(w), |w.steps| - 1);
    }
  }

  // ---- The source's code

  method FindCut(w: Walk, cap: nat, fallback: nat) returns (cut: nat)
    ensures cut == CutAt(w, cap, fallback)
  {
    var best: Option<nat> := None;
    for n := 0 to |w.steps| + 1
      invariant best == CutBelow(w, cap, n)
    {
      var len := |Boundary(w, n)|;
      if len <= cap && (best.None? || best.value <= len) {
        best := Some(len);
      }
    }
    cut := if best.Some? then best.value else fallback;
  }

  method CopyInto(buf: array<u8>, source: bytes, from: nat, to: nat)
    requires from <= to <= |source| && to <= buf.Length && buf[..from] == source[..from]
    modifies buf
    ensures buf[..] == source[..to] + old(buf[..])[to..]
  {
    for i := from to to
      invariant buf[..i] == source[..i]
      invariant buf[i..] == old(buf[..])[i..]
    {
      buf[i] := source[i];
    }
  }

  /** A buffer after a request: the longest run of whole tokens that fits, and then what was there. */
  ghost predicate Completed(g: Grammar, prefix: Text, w: Walk, before: bytes, after: bytes, written: u32) {
    var cut := CutAt(w, |before|, |prefix|);
    && |prefix| <= cut <= |w.source| && cut <= |before|
    && (exists i :: Served(g, prefix, w, |before|, i, cut))
    && after == w.source[..cut] + before[cut..]
    && written == (cut - |prefix|) % TWO_32
  }

  method Complete(g: Grammar, buf: array<u8>, prefix: Text, maxTokens: u32, w: Walk) returns (reply: Reply)
    requires |prefix| <= buf.Length && buf[..|prefix|] == prefix && Fragment(g, prefix, maxTokens, w)
    modifies buf
    ensures reply.ok && Completed(g, prefix, w, old(buf[..]), buf[..], reply.written)
  {
    ghost var i := CutIsServed(g, prefix, w, buf.Length);
    var cut := FindCut(w, buf.Length, |prefix|);
    assert Served(g, prefix, w, buf.Length, i, cut);
    assert w.source[..|prefix|] == w.source[..cut][..|prefix|] == prefix;
    CopyInto(buf, w.source, |prefix|, cut);
    reply := Reply(true, (cut - |prefix|) % TWO_32);
  }

  /** Refused, and untouched, just when the prefix is longer than the buffer or not text. */
  method HandleRequest(g: Grammar, buf: array<u8>, prefixLen: nat, maxTokens: u32, seed: bv64) returns (reply: Reply)
    modifies buf
    ensures reply.ok <==> prefixLen <= buf.Length && Valid(old(buf[..])[..prefixLen])
    ensures !reply.ok ==> reply == MALFORMED && buf[..] == old(buf[..])
    ensures reply.ok ==>
              var prefix: Text := old(buf[..])[..prefixLen];
              var w := WalkFrom(g, prefix, Stream(seed), DEFAULT, AfterTokens(maxTokens));
              Completed(g, prefix, w, old(buf[..]), buf[..], reply.written)
  {
    if prefixLen > buf.Length {
      return MALFORMED;
    }
    var bytes := buf[..prefixLen];
    assert buf[..][..prefixLen] == bytes;
    if !Valid(bytes) {
      return MALFORMED;
    }
    var prefix: Text := bytes;
    var w := WalkFromSeed(g, prefix, seed, DEFAULT, AfterTokens(maxTokens));
    FragmentWalks(g, DEFAULT, prefix, Stream(seed), maxTokens);
    reply := Complete(g, buf, prefix, maxTokens, w);
  }
}
