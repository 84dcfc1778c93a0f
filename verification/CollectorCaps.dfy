/** Capability holdings are exported exactly once, over any stream and any number of kernel
    restarts (collector/src/caps.rs, collector/src/main.rs). */
module CollectorCaps {
  import opened Words
  import opened CollectorModel

  // ---- Holdings, read off the stream alone

  /** Some `Hello` came before frame `k`. */
  ghost predicate Live(trace: seq<Tick>, k: nat)
    requires k <= |trace|
  {
    exists j :: 0 <= j < k && trace[j].frame.Hello?
  }

  /** Frame `k` is about capability `c`, which is not a one-shot reply. */
  predicate About(trace: seq<Tick>, k: nat, c: nat)
    requires k < |trace|
  {
    trace[k].frame.Cap? && trace[k].frame.event.cap == c && trace[k].frame.event.kind != Reply
  }

  ghost predicate Gives(trace: seq<Tick>, k: nat, c: nat)
    requires k < |trace|
  {
    Live(trace, k) && About(trace, k, c) && trace[k].frame.event.action != Revoked
  }

  /** A revocation of `c`, or a restart. */
  predicate Ends(trace: seq<Tick>, k: nat, c: nat)
    requires k < |trace|
  {
    trace[k].frame.Hello? || (About(trace, k, c) && trace[k].frame.event.action == Revoked)
  }

  /** Given at `i`, not ended before `k`. */
  ghost predicate Held(trace: seq<Tick>, c: nat, i: nat, k: nat)
    requires k <= |trace|
  {
    i < k && Gives(trace, i, c) && forall m | i < m < k :: !Ends(trace, m, c)
  }

  /** Nobody holds `c` at frame `k`. */
  ghost predicate Free(trace: seq<Tick>, c: nat, k: nat)
    requires k <= |trace|
  {
    forall j | 0 <= j < k :: !Held(trace, c, j, k)
  }

  /** A holding begins: `c` is given while nobody holds it. */
  ghost predicate Opens(trace: seq<Tick>, c: nat, i: nat)
    requires i < |trace|
  {
    Gives(trace, i, c) && Free(trace, c, i)
  }

  /** The holding begun at `i` lasts until `k`. */
  ghost predicate Lasts(trace: seq<Tick>, c: nat, i: nat, k: nat)
    requires k <= |trace|
  {
    i < k && Opens(trace, c, i) && Held(trace, c, i, k)
  }

  /** ... and no longer: it is ended there, or the stream is. */
  ghost predicate Closes(trace: seq<Tick>, c: nat, i: nat, k: nat)
    requires k <= |trace|
  {
    Lasts(trace, c, i, k) && (k == |trace| || Ends(trace, k, c))
  }

  ghost function WallAt(trace: seq<Tick>, k: nat): (ns: nat)
    requires k < |trace| && trace[k].frame.Cap?
  {
    ToWall(After(trace, k + 1).clock, trace[k].frame.event.t)
  }

  /** What is known of the holding begun at `i` by frame `k`: who was given it, when, and who
      holds it now. */
  ghost function HoldingOf(trace: seq<Tick>, c: nat, i: nat, k: nat): (h: Holding)
    requires i < k <= |trace| && trace[i].frame.Cap?
    decreases k
  {
    if k == i + 1 then Begun(trace[i].frame.event, WallAt(trace, i))
    else
      var h := HoldingOf(trace, c, i, k - 1);
      if Gives(trace, k - 1, c) then Continued(h, trace[k - 1].frame.event, WallAt(trace, k - 1)) else h
  }

  /** The span the holding begun at `i` becomes when it ends at `k`: revoked by a revocation, and
      merely cut off by a restart or the end of the stream. */
  ghost function SpanOf(trace: seq<Tick>, endNow: nat, c: nat, i: nat, k: nat): (s: CapSpan)
    requires i < k <= |trace| && trace[i].frame.Cap? && (k < |trace| ==> Ends(trace, k, c))
  {
    var h := HoldingOf(trace, c, i, k);
    if k == |trace| then CapSpan(c, h, endNow, false)
    else if trace[k].frame.Hello? then CapSpan(c, h, trace[k].flushNow, false)
    else RevokedSpan(h, trace[k].frame.event, WallAt(trace, k))
  }

  /** The cap spans that frame `k` exports, or the end of the stream. */
  ghost function CapExports(trace: seq<Tick>, endNow: nat, k: nat): (spans: set<CapSpan>)
    requires k <= |trace|
  {
    if k == |trace| then FlushedSpans(After(trace, k).caps.open, endNow)
    else Exports(trace, k).flushed + set s | s in Exports(trace, k).drained
  }

  // ---- Which holding is open

  ghost function Opening(trace: seq<Tick>, c: nat, k: nat): (i: Option<nat>)
    requires k <= |trace|
    ensures i.Some? ==> i.value < k && trace[i.value].frame.Cap?
  {
    if k == 0 || Ends(trace, k - 1, c) then None
    else if Opening(trace, c, k - 1).Some? then Opening(trace, c, k - 1)
    else if Gives(trace, k - 1, c) then Some(k - 1)
    else None
  }

  lemma LastsOne(trace: seq<Tick>, c: nat, i: nat, j: nat, k: nat)
    requires k <= |trace| && Lasts(trace, c, i, k) && Lasts(trace, c, j, k)
    ensures i == j
  {
    if i < j {
      assert Held(trace, c, i, j);
    } else if j < i {
      assert Held(trace, c, j, i);
    }
  }

  /** A capability that is held at all has been since some beginning. */
  lemma {:induction false} OpeningLasts(trace: seq<Tick>, c: nat, k: nat)
    requires k <= |trace|
    ensures Opening(trace, c, k).Some? ==> Lasts(trace, c, Opening(trace, c, k).value, k)
    ensures Opening(trace, c, k).None? ==> Free(trace, c, k)
    decreases k
  {
    if k > 0 {
      OpeningLasts(trace, c, k - 1);
      if Ends(trace, k - 1, c) {
        HeldNotPastEnd(trace, c, k);
      } else if Opening(trace, c, k - 1).None? {
        HeldFromBefore(trace, c, k);
      }
    }
  }

  lemma HeldNotPastEnd(trace: seq<Tick>, c: nat, k: nat)
    requires 0 < k <= |trace| && Ends(trace, k - 1, c)
    ensures Free(trace, c, k)
  {
  }

  lemma HeldFromBefore(trace: seq<Tick>, c: nat, k: nat)
    requires 0 < k <= |trace| && !Ends(trace, k - 1, c)
    requires Free(trace, c, k - 1)
    ensures Gives(trace, k - 1, c) ==> Lasts(trace, c, k - 1, k)
    ensures !Gives(trace, k - 1, c) ==> Free(trace, c, k)
  {
    forall j | 0 <= j < k - 1
      ensures !Held(trace, c, j, k)
    {
      assert !Held(trace, c, j, k - 1);
    }
  }

  lemma OpeningIsLasting(trace: seq<Tick>, c: nat, i: nat, k: nat)
    requires k <= |trace| && Lasts(trace, c, i, k)
    ensures Opening(trace, c, k) == Some(i)
  {
    OpeningLasts(trace, c, k);
    if Opening(trace, c, k).Some? {
      LastsOne(trace, c, i, Opening(trace, c, k).value, k);
    }
  }

  // ---- The tracker knows exactly the open holdings

  ghost function Known(trace: seq<Tick>, c: nat, k: nat): (h: Option<Holding>)
    requires k <= |trace|
  {
    var i := Opening(trace, c, k);
    if i.Some? then Some(HoldingOf(trace, c, i.value, k)) else None
  }

  ghost predicate Tracks(trace: seq<Tick>, k: nat, m: Model)
    requires k <= |trace|
  {
    && (m.clock.anchor.Some? <==> Live(trace, k))
    && m.caps.closed == []
    && forall c: nat :: Lookup(m.caps.open, c) == Known(trace, c, k)
  }

  lemma KnownNext(trace: seq<Tick>, c: nat, k: nat)
    requires k < |trace|
    ensures Ends(trace, k, c) ==> Known(trace, c, k + 1) == None
    ensures !Ends(trace, k, c) && !Gives(trace, k, c) ==> Known(trace, c, k + 1) == Known(trace, c, k)
    ensures !Ends(trace, k, c) && Gives(trace, k, c) ==>
              Known(trace, c, k + 1) == Some(
                if Known(trace, c, k).Some? then
                  Continued(Known(trace, c, k).value, trace[k].frame.event, WallAt(trace, k))
                else Begun(trace[k].frame.event, WallAt(trace, k)))
  {
  }

  lemma LiveNext(trace: seq<Tick>, k: nat)
    requires k < |trace|
    ensures Live(trace, k + 1) <==> Live(trace, k) || trace[k].frame.Hello?
  {
    if trace[k].frame.Hello? {
      assert Live(trace, k + 1);
    }
  }

  lemma NothingBeforeHello(trace: seq<Tick>, c: nat, k: nat)
    requires k <= |trace| && !Live(trace, k)
    ensures Known(trace, c, k) == None
  {
    OpeningLasts(trace, c, k);
  }

  /** The tracker after frame `k`, capability by capability. */
  lemma OpenNext(trace: seq<Tick>, c: nat, k: nat)
    requires k < |trace| && Tracks(trace, k, After(trace, k))
    ensures Lookup(After(trace, k + 1).caps.open, c) == Known(trace, c, k + 1)
  {
    var f := trace[k].frame;
    KnownNext(trace, c, k);
    assert Lookup(After(trace, k).caps.open, c) == Known(trace, c, k);
    if !f.Hello? && !Live(trace, k) {
      NothingBeforeHello(trace, c, k);
    }
  }

  lemma TracksNext(trace: seq<Tick>, k: nat)
    requires k < |trace| && Tracks(trace, k, After(trace, k))
    ensures Tracks(trace, k + 1, After(trace, k + 1))
  {
    LiveNext(trace, k);
    var next, m := k + 1, After(trace, k + 1);
    forall c: nat
      ensures Lookup(m.caps.open, c) == Known(trace, c, next)
    {
      OpenNext(trace, c, k);
    }
  }

  lemma {:induction false} AlwaysTracks(trace: seq<Tick>, k: nat)
    requires k <= |trace|
    ensures Tracks(trace, k, After(trace, k))
    decreases k
  {
    if k > 0 {
      AlwaysTracks(trace, k - 1);
      TracksNext(trace, k - 1);
    }
  }

  // ---- Exactly once

  /** The holdings that end at frame `k`, by where they began. */
  ghost function EndingAt(trace: seq<Tick>, k: nat): (starts: set<nat>)
    requires k <= |trace|
  {
    set i | 0 <= i < k && trace[i].frame.Cap? && Closes(trace, trace[i].frame.event.cap, i, k)
  }

  ghost function EndingSpans(trace: seq<Tick>, endNow: nat, k: nat): (spans: set<CapSpan>)
    requires k <= |trace|
  {
    set i | i in EndingAt(trace, k) :: SpanOf(trace, endNow, trace[i].frame.event.cap, i, k)
  }

  /** Ending at `k`: each capability then known, once. */
  lemma EndingIsKnown(trace: seq<Tick>, endNow: nat, k: nat, s: CapSpan)
    requires k <= |trace|
    ensures s in EndingSpans(trace, endNow, k) <==>
            && (k < |trace| ==> Ends(trace, k, s.cap))
            && Opening(trace, s.cap, k).Some?
            && s == SpanOf(trace, endNow, s.cap, Opening(trace, s.cap, k).value, k)
  {
    if s in EndingSpans(trace, endNow, k) {
      var i :| i in EndingAt(trace, k) && s == SpanOf(trace, endNow, trace[i].frame.event.cap, i, k);
      OpeningIsLasting(trace, trace[i].frame.event.cap, i, k);
    }
    OpeningLasts(trace, s.cap, k);
    if (k < |trace| ==> Ends(trace, k, s.cap)) && Opening(trace, s.cap, k).Some? {
      var i := Opening(trace, s.cap, k).value;
      assert Gives(trace, i, s.cap);
      assert i in EndingAt(trace, k);
    }
  }

  /** The same for what is exported. */
  lemma ExportIsKnown(trace: seq<Tick>, endNow: nat, k: nat, s: CapSpan)
    requires k <= |trace|
    ensures s in CapExports(trace, endNow, k) <==>
            && (k < |trace| ==> Ends(trace, k, s.cap))
            && Opening(trace, s.cap, k).Some?
            && s == SpanOf(trace, endNow, s.cap, Opening(trace, s.cap, k).value, k)
  {
    AlwaysTracks(trace, k);
    var m := After(trace, k);
    assert Lookup(m.caps.open, s.cap) == Known(trace, s.cap, k);
    if k < |trace| && !trace[k].frame.Hello? && !Live(trace, k) {
      NothingBeforeHello(trace, s.cap, k);
    }
    if k < |trace| && trace[k].frame.Cap? {
      var c := trace[k].frame.event.cap;
      assert Lookup(m.caps.open, c) == Known(trace, c, k);
    }
  }

  /** Over any stream, with any number of restarts, each frame exports the spans of exactly the
      holdings that end there, and the end of the stream those of the rest. */
  lemma ExportsAreEndings(trace: seq<Tick>, endNow: nat, k: nat)
    requires k <= |trace|
    ensures CapExports(trace, endNow, k) == EndingSpans(trace, endNow, k)
  {
    forall s
      ensures s in CapExports(trace, endNow, k) <==> s in EndingSpans(trace, endNow, k)
    {
      ExportIsKnown(trace, endNow, k, s);
      EndingIsKnown(trace, endNow, k, s);
    }
  }

  /** No two holdings that end together share a span, and nothing is exported both ways. */
  lemma EndingsDistinct(trace: seq<Tick>, endNow: nat, k: nat, i: nat, j: nat)
    requires k <= |trace| && i in EndingAt(trace, k) && j in EndingAt(trace, k) && i != j
    ensures SpanOf(trace, endNow, trace[i].frame.event.cap, i, k)
            != SpanOf(trace, endNow, trace[j].frame.event.cap, j, k)
  {
    if trace[i].frame.event.cap == trace[j].frame.event.cap {
      LastsOne(trace, trace[i].frame.event.cap, i, j, k);
    }
  }

  lemma OneWay(trace: seq<Tick>, k: nat)
    requires k < |trace|
    ensures |Exports(trace, k).drained| <= 1
    ensures Exports(trace, k).flushed == {} || Exports(trace, k).drained == []
  {
    AlwaysTracks(trace, k);
  }

  /** Every holding ends somewhere after it began, and nowhere else. */
  lemma EndsOnce(trace: seq<Tick>, c: nat, i: nat) returns (k: nat)
    requires i < |trace| && Opens(trace, c, i)
    ensures i < k <= |trace| && Closes(trace, c, i, k)
    ensures forall k' | i < k' <= |trace| && Closes(trace, c, i, k') :: k' == k
  {
    k := i + 1;
    while k < |trace| && !Ends(trace, k, c)
      invariant i < k <= |trace| && forall m | i < m < k :: !Ends(trace, m, c)
    {
      k := k + 1;
    }
  }

  /** A holding is exported by exactly one frame, or by the end of the stream, and is marked
      revoked just when a revocation ended it. */
  lemma ExportedExactlyOnce(trace: seq<Tick>, endNow: nat, c: nat, i: nat) returns (k: nat)
    requires i < |trace| && Opens(trace, c, i)
    ensures i < k <= |trace| && Closes(trace, c, i, k)
    ensures SpanOf(trace, endNow, c, i, k) in CapExports(trace, endNow, k)
    ensures forall k' | 0 <= k' <= |trace| :: i in EndingAt(trace, k') <==> k' == k
    ensures SpanOf(trace, endNow, c, i, k).revoked <==> k < |trace| && !trace[k].frame.Hello?
  {
    k := EndsOnce(trace, c, i);
    assert i in EndingAt(trace, k);
    ExportsAreEndings(trace, endNow, k);
  }
}
