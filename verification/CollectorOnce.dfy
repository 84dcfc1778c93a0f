/** What the driver exports, counted: each holding once (collector/src/main.rs). */
module CollectorOnce {
  import opened CollectorModel
  import opened CollectorCaps
  import opened CollectorState

  // ---- Lists and sets

  lemma {:induction false} ListsOnce<T(!new)>(s: seq<T>, x: set<T>, e: T)
    requires Lists(s, x)
    ensures multiset(s)[e] == if e in x then 1 else 0
    decreases |s|
  {
    if s == [] {
      assert e !in s;
    } else {
      var n := |s| - 1;
      assert s == s[..n] + [s[n]];
      ListsFront(s, x, n);
      ListsOnce(s[..n], x - {s[n]}, e);
    }
  }

  lemma ListsFront<T(!new)>(s: seq<T>, x: set<T>, n: nat)
    requires Lists(s, x) && |s| == n + 1
    ensures Lists(s[..n], x - {s[n]}) && s[n] in x
  {
    forall e
      ensures e in s[..n] <==> e in x - {s[n]}
    {
      if e in s[..n] {
        var i :| 0 <= i < n && s[i] == e;
        assert s[i] != s[n] && e in s;
      } else if e in x {
        assert e in s;
        var i :| 0 <= i < |s| && s[i] == e;
        assert i == n;
      }
    }
  }

  lemma {:induction false} ListsCount<T(!new)>(s: seq<T>, x: set<T>)
    requires Lists(s, x)
    ensures |s| == |x|
    decreases |s|
  {
    if s == [] {
      assert forall e :: e in x ==> e in s;
    } else {
      var n := |s| - 1;
      ListsFront(s, x, n);
      ListsCount(s[..n], x - {s[n]});
    }
  }

  // ---- Exports as they are made

  /** The cap spans exported with frame `k`, in order, or at the end of the stream. */
  function CapsExported(exports: seq<Exported>, last: seq<CapSpan>, k: nat): (spans: seq<CapSpan>)
    requires k <= |exports|
  {
    if k == |exports| then last else exports[k].flushed + exports[k].drained
  }

  lemma AtMostOneLists(s: seq<CapSpan>)
    requires |s| <= 1
    ensures Lists(s, set e | e in s)
  {
  }

  /** What is exported together is a list without repetition of the spans that end there. */
  lemma ExportsList(trace: seq<Tick>, endNow: nat, exports: seq<Exported>, last: seq<CapSpan>, k: nat)
    requires Ran(trace, endNow, exports, last) && k <= |trace|
    ensures Lists(CapsExported(exports, last, k), CapExports(trace, endNow, k))
  {
    if k < |trace| {
      var x, b := exports[k], Exports(trace, k);
      assert Renders(x, b);
      OneWay(trace, k);
      AtMostOneLists(b.drained);
      JoinedLists(x.flushed, x.drained, b.flushed, set s | s in b.drained);
    }
  }

  /** Of two lists one of which is empty. */
  lemma JoinedLists(s: seq<CapSpan>, t: seq<CapSpan>, x: set<CapSpan>, y: set<CapSpan>)
    requires Lists(s, x) && Lists(t, y) && (x == {} || t == [])
    ensures Lists(s + t, x + y)
  {
    if t == [] {
      assert s + t == s;
      assert forall e :: e in y ==> e in t;
    } else {
      ListsCount(s, x);
      assert s + t == t;
    }
  }

  ghost function SpanFrom(trace: seq<Tick>, endNow: nat, k: nat, i: nat): (s: CapSpan)
    requires k <= |trace| && i in EndingAt(trace, k)
  {
    SpanOf(trace, endNow, trace[i].frame.event.cap, i, k)
  }

  lemma {:induction false} SpansCount(trace: seq<Tick>, endNow: nat, k: nat, starts: set<nat>)
    requires k <= |trace| && starts <= EndingAt(trace, k)
    ensures |set i | i in starts :: SpanFrom(trace, endNow, k, i)| == |starts|
    decreases starts
  {
    if starts != {} {
      var j :| j in starts;
      var rest := starts - {j};
      SpansCount(trace, endNow, k, rest);
      var all, fewer := set i | i in starts :: SpanFrom(trace, endNow, k, i),
                        set i | i in rest :: SpanFrom(trace, endNow, k, i);
      var s := SpanFrom(trace, endNow, k, j);
      forall i | i in rest ensures SpanFrom(trace, endNow, k, i) != s { EndingsDistinct(trace, endNow, k, i, j); }
      assert s !in fewer && all == fewer + {s};
    }
  }

  /** Each frame, and the end of the stream, exports as many spans as holdings end there. */
  lemma AsManyAsEnd(trace: seq<Tick>, endNow: nat, exports: seq<Exported>, last: seq<CapSpan>, k: nat)
    requires Ran(trace, endNow, exports, last) && k <= |trace|
    ensures |CapsExported(exports, last, k)| == |EndingAt(trace, k)|
  {
    ExportsList(trace, endNow, exports, last, k);
    ListsCount(CapsExported(exports, last, k), CapExports(trace, endNow, k));
    ExportsAreEndings(trace, endNow, k);
    SpansCount(trace, endNow, k, EndingAt(trace, k));
    assert EndingSpans(trace, endNow, k) == set i | i in EndingAt(trace, k) :: SpanFrom(trace, endNow, k, i);
  }

  /** Every holding, over any stream with any number of restarts, is exported once, by the one frame
      it ends at or by the end of the stream, and no frame exports more spans than end there. */
  lemma DriverExportsOnce(
      trace: seq<Tick>, endNow: nat, exports: seq<Exported>, last: seq<CapSpan>, c: nat, i: nat)
    returns (k: nat)
    requires Ran(trace, endNow, exports, last) && i < |trace| && Opens(trace, c, i)
    ensures i < k <= |trace| && Closes(trace, c, i, k)
    ensures multiset(CapsExported(exports, last, k))[SpanOf(trace, endNow, c, i, k)] == 1
    ensures forall k' | 0 <= k' <= |trace| :: i in EndingAt(trace, k') <==> k' == k
    ensures forall k' | 0 <= k' <= |trace| :: |CapsExported(exports, last, k')| == |EndingAt(trace, k')|
    ensures SpanOf(trace, endNow, c, i, k).revoked <==> k < |trace| && !trace[k].frame.Hello?
  {
    k := ExportedExactlyOnce(trace, endNow, c, i);
    ExportsList(trace, endNow, exports, last, k);
    ListsOnce(CapsExported(exports, last, k), CapExports(trace, endNow, k), SpanOf(trace, endNow, c, i, k));
    forall k' | 0 <= k' <= |trace|
      ensures |CapsExported(exports, last, k')| == |EndingAt(trace, k')|
    {
      AsManyAsEnd(trace, endNow, exports, last, k');
    }
  }
}
