/** Splitting console output on character boundaries and packing capability names
    (abi/src/lib.rs, and the console loop of user/runtime/src/lib.rs). */
module Names {
  import opened Words
  import opened Utf8

  const CAP_NAME_LEN: nat := 24
  const DEBUG_WRITE_MAX: nat := 256

  /** From `end`, back up over continuation bytes. */
  function BackUp(b: bytes, end: nat): (e: nat)
    requires end < |b|
    ensures e <= end
    ensures e > 0 ==> !Cont(b[e])
    ensures forall j | e < j <= end :: Cont(b[j])
  {
    if end > 0 && Cont(b[end]) then BackUp(b, end - 1) else end
  }

  /** Where the next chunk of at most `max` bytes ends. */
  function ChunkEnd(b: bytes, max: nat): (e: nat)
    ensures e <= max && e <= |b|
  {
    if |b| <= max then |b|
    else
      var e := BackUp(b, max);
      if e == 0 then max else e
  }

  method Utf8ChunkEnd(b: bytes, max: nat) returns (end: nat)
    ensures end == ChunkEnd(b, max)
  {
    if |b| <= max {
      return |b|;
    }
    end := max;
    while end > 0 && Cont(b[end])
      invariant 0 <= end <= max < |b|
      invariant BackUp(b, end) == BackUp(b, max)
    {
      end := end - 1;
    }
    if end == 0 {
      end := max;
    }
  }

  /** `e` is the longest prefix of `b` within `max` bytes that ends on a boundary. */
  ghost predicate LongestPrefix(b: bytes, max: nat, e: nat) {
    && e <= max && e <= |b|
    && Valid(b[..e])
    && forall i | e < i <= max && i <= |b| :: !Valid(b[..i])
  }

  /** The cut is the longest whole-character prefix unless the first character alone is
      wider than `max`, and then it splits that character. */
  lemma ChunkEndIsLongestPrefix(b: bytes, max: nat)
    requires Valid(b)
    ensures LongestPrefix(b, max, ChunkEnd(b, max)) <==> max == 0 || CharLen(b) <= max
    ensures max > 0 && CharLen(b) > max ==> !Valid(b[..ChunkEnd(b, max)])
  {
    if |b| <= max {
      assert b[..|b|] == b;
    } else {
      var e := BackUp(b, max);
      ValidSplit(b, e);
      assert !Cont(b[0]);
      forall i | e < i <= max
        ensures !Valid(b[..i])
      {
        ValidSplit(b, i);
      }
      var k := CharLen(b);
      if 0 < max < k {
        assert forall j | 0 < j <= max :: Cont(b[j]);
        assert e == 0;
      } else if k <= max {
        assert k < |b|;
        assert b[k..] != [] && CharLen(b[k..]) > 0;
        assert !Cont(b[k..][0]);
      }
    }
  }

  /** Of any bytes, text or not: all of them if they fit, and else up to the last place within the
      limit, but not before the first byte, where no continuation byte follows; or as many as the
      limit allows if there is none. */
  lemma ChunkEndIs(b: bytes, max: nat, e: nat)
    requires e == ChunkEnd(b, max)
    ensures |b| <= max ==> e == |b|
    ensures |b| > max && (forall j | 0 < j <= max :: Cont(b[j])) ==> e == max
    ensures |b| > max && (exists j | 0 < j <= max :: !Cont(b[j])) ==>
              0 < e <= max && !Cont(b[e]) && forall j | e < j <= max :: Cont(b[j])
  {
  }

  /** A chunk of non-empty input is non-empty exactly when the limit is. */
  lemma ChunkEndProgress(b: bytes, max: nat)
    requires b != []
    ensures ChunkEnd(b, max) > 0 <==> max > 0
  {
  }

  /** A three-byte character against a limit of one is split: the chunk is not empty, not text, and
      not the longest whole-character prefix, which is empty. */
  lemma SplitCharacter()
    ensures var euro := [0xE2, 0x82, 0xAC];
            && Valid(euro) && CharLen(euro) == 3 && ChunkEnd(euro, 1) == 1
            && !Valid(euro[..1]) && !LongestPrefix(euro, 1, 1) && LongestPrefix(euro, 1, 0)
  {
    var euro: bytes := [0xE2, 0x82, 0xAC];
    assert CharLen(euro) == 3 && euro[3..] == [];
    ChunkEndIsLongestPrefix(euro, 1);
    assert euro[..0] == [];
  }

  // ---- Chunk after chunk

  function Concat(chunks: seq<bytes>): (b: bytes) {
    if chunks == [] then [] else chunks[0] + Concat(chunks[1..])
  }

  /** The chunks of `b` under a limit. */
  function Chunks(b: bytes, max: nat): (chunks: seq<bytes>)
    requires max > 0
    decreases |b|
  {
    if b == [] then []
    else
      ChunkEndProgress(b, max);
      var end := ChunkEnd(b, max);
      [b[..end]] + Chunks(b[end..], max)
  }

  predicate AllText(chunks: seq<bytes>) { forall c | c in chunks :: Valid(c) }

  /** No chunk is empty or over the limit, and together they are the input, whatever it is. */
  lemma {:induction false} ChunksCover(b: bytes, max: nat)
    requires max > 0
    ensures Concat(Chunks(b, max)) == b
    ensures forall c | c in Chunks(b, max) :: 0 < |c| <= max
    decreases |b|
  {
    if b != [] {
      ChunkEndProgress(b, max);
      var end := ChunkEnd(b, max);
      ChunksCover(b[end..], max);
      assert b[..end] + b[end..] == b;
    }
  }

  /** Every character of a text is within the limit. */
  predicate CharsFit(b: bytes, max: nat)
    requires Valid(b)
    decreases |b|
  {
    b == [] || (CharLen(b) <= max && CharsFit(b[CharLen(b)..], max))
  }

  lemma {:induction false} FourFits(b: bytes, max: nat)
    requires Valid(b) && max >= 4
    ensures CharsFit(b, max)
    decreases |b|
  {
    if b != [] {
      FourFits(b[CharLen(b)..], max);
    }
  }

  /** A text within the limit has no character over it. */
  lemma {:induction false} ShortTextFits(b: bytes, max: nat)
    requires Valid(b) && |b| <= max
    ensures CharsFit(b, max)
    decreases |b|
  {
    if b != [] {
      ShortTextFits(b[CharLen(b)..], max);
    }
  }

  lemma {:induction false} CharsFitConcat(a: bytes, b: bytes, max: nat)
    requires Valid(a) && Valid(b)
    ensures Valid(a + b) && (CharsFit(a + b, max) <==> CharsFit(a, max) && CharsFit(b, max))
    decreases |a|
  {
    ValidConcat(a, b);
    if a == [] {
      assert a + b == b;
    } else {
      var k := CharLen(a);
      CharLenConcat(a, b);
      assert (a + b)[k..] == a[k..] + b;
      CharsFitConcat(a[k..], b, max);
    }
  }

  /** The chunks of a text are all text if and only if every character is within the limit. */
  lemma {:induction false} ChunksAreTextIff(b: bytes, max: nat)
    requires Valid(b) && max > 0
    ensures AllText(Chunks(b, max)) <==> CharsFit(b, max)
    decreases |b|
  {
    if b != [] {
      ChunkEndProgress(b, max);
      var end := ChunkEnd(b, max);
      ChunkEndIsLongestPrefix(b, max);
      if CharLen(b) <= max {
        ValidSplit(b, end);
        FirstChunkFits(b, max, end);
        ChunksAreTextIff(b[end..], max);
        TextCons(b[..end], Chunks(b[end..], max));
      } else {
        assert b[..end] in Chunks(b, max);
      }
    }
  }

  lemma FirstChunkFits(b: bytes, max: nat, end: nat)
    requires end <= |b| && end <= max && Valid(b[..end]) && Valid(b[end..])
    ensures Valid(b) && (CharsFit(b, max) <==> CharsFit(b[end..], max))
  {
    assert b[..end] + b[end..] == b;
    CharsFitConcat(b[..end], b[end..], max);
    ShortTextFits(b[..end], max);
  }

  lemma TextCons(c: bytes, chunks: seq<bytes>)
    requires Valid(c)
    ensures AllText([c] + chunks) <==> AllText(chunks)
  {
    if AllText([c] + chunks) {
      forall d | d in chunks ensures Valid(d) { assert d in [c] + chunks; }
    }
  }

  // ---- The console loop

  /** What the kernel answers to a chunk: how many bytes it took, or nothing if it refuses. */
  type Kernel = bytes -> Option<nat>

  function Taken(kernel: Kernel, sent: seq<bytes>): (n: nat) {
    if sent == [] then 0
    else
      var last := kernel(sent[|sent| - 1]);
      Taken(kernel, sent[..|sent| - 1]) + if last.Some? then last.value else 0
  }

  /** The chunks up to the first the kernel refuses. */
  ghost predicate SentUpTo(chunks: seq<bytes>, kernel: Kernel, sent: seq<bytes>) {
    && sent <= chunks
    && (forall c | c in sent :: kernel(c).Some?)
    && (|sent| < |chunks| ==> kernel(chunks[|sent|]).None?)
  }

  /** Part of the way: `sent` has been taken and `left` is still to go. */
  ghost predicate Sending(all: seq<bytes>, kernel: Kernel, sent: seq<bytes>, left: seq<bytes>, written: nat) {
    sent + left == all && (forall c | c in sent :: kernel(c).Some?) && written == Taken(kernel, sent)
  }

  lemma SendOne(all: seq<bytes>, kernel: Kernel, sent: seq<bytes>, left: seq<bytes>, written: nat)
    requires Sending(all, kernel, sent, left, written)
    ensures left == [] || kernel(left[0]).None? ==> SentUpTo(all, kernel, sent)
    ensures left != [] && kernel(left[0]).Some? ==>
              Sending(all, kernel, sent + [left[0]], left[1..], written + kernel(left[0]).value)
  {
    if left == [] {
      assert sent + left == sent;
    } else {
      assert sent + left == (sent + [left[0]]) + left[1..];
      assert (sent + [left[0]])[..|sent|] == sent;
    }
  }

  /** Writes `b` chunk by chunk until the kernel refuses one, and adds up what it says it took. */
  method WriteChunks(b: bytes, max: nat, kernel: Kernel) returns (written: nat, sent: seq<bytes>)
    requires max > 0
    ensures SentUpTo(Chunks(b, max), kernel, sent) && written == Taken(kernel, sent)
  {
    written := 0;
    sent := [];
    var rest := b;
    while rest != []
      invariant Sending(Chunks(b, max), kernel, sent, Chunks(rest, max), written)
      decreases |rest|
    {
      SendOne(Chunks(b, max), kernel, sent, Chunks(rest, max), written);
      ChunkEndProgress(rest, max);
      var end := Utf8ChunkEnd(rest, max);
      var chunk, tail := rest[..end], rest[end..];
      assert Chunks(rest, max)[0] == chunk && Chunks(rest, max)[1..] == Chunks(tail, max);
      var ret := kernel(chunk);
      if ret.None? {
        return;
      }
      sent := sent + [chunk];
      written := written + ret.value;
      rest := tail;
    }
    SendOne(Chunks(b, max), kernel, sent, [], written);
  }

  lemma {:induction false} TakenInFull(kernel: Kernel, sent: seq<bytes>)
    requires forall c | c in sent :: kernel(c) == Some(|c|)
    ensures Taken(kernel, sent) == |Concat(sent)|
  {
    if sent != [] {
      var n := |sent| - 1;
      TakenInFull(kernel, sent[..n]);
      assert sent == sent[..n] + [sent[n]];
      ConcatSnoc(sent[..n], sent[n]);
    }
  }

  lemma {:induction false} ConcatSnoc(chunks: seq<bytes>, c: bytes)
    ensures Concat(chunks + [c]) == Concat(chunks) + c
  {
    if chunks == [] {
      assert chunks + [c] == [c] && Concat([c]) == c + [];
    } else {
      assert (chunks + [c])[1..] == chunks[1..] + [c];
      ConcatSnoc(chunks[1..], c);
      ConcatAssociate(chunks[0], Concat(chunks[1..]), c);
    }
  }

  /** A kernel that takes the whole of every text within the limit is given the whole of every
      text whose characters are, under any limit; from four up, that is every text. */
  lemma TextIsWritten(b: bytes, max: nat, kernel: Kernel, sent: seq<bytes>)
    requires Valid(b) && max > 0 && (CharsFit(b, max) || max >= 4)
    requires forall c | Valid(c) && 0 < |c| <= max :: kernel(c) == Some(|c|)
    requires SentUpTo(Chunks(b, max), kernel, sent)
    ensures sent == Chunks(b, max) && Taken(kernel, sent) == |b|
  {
    if max >= 4 {
      FourFits(b, max);
    }
    ChunksAreTextIff(b, max);
    ChunksCover(b, max);
    var chunks := Chunks(b, max);
    assert sent == chunks;
    TakenInFull(kernel, sent);
  }

  method ConsoleWrite(b: bytes, kernel: Kernel) returns (written: nat, sent: seq<bytes>)
    ensures SentUpTo(Chunks(b, 256), kernel, sent) && written == Taken(kernel, sent)
    ensures Valid(b) && (forall c | Valid(c) && 0 < |c| <= 256 :: kernel(c) == Some(|c|)) ==> written == |b|
  {
    written, sent := WriteChunks(b, DEBUG_WRITE_MAX, kernel);
    if Valid(b) && forall c | Valid(c) && 0 < |c| <= DEBUG_WRITE_MAX :: kernel(c) == Some(|c|) {
      TextIsWritten(b, DEBUG_WRITE_MAX, kernel, sent);
    }
  }

  // ---- Capability names

  function PackName(name: Text): (out: bytes)
    ensures |out| == CAP_NAME_LEN
  {
    var take := ChunkEnd(name, CAP_NAME_LEN);
    name[..take] + Repeat(0, CAP_NAME_LEN - take)
  }

  /** The bytes before the first NUL. */
  function UpToNul(b: bytes): (p: bytes)
    ensures p <= b && 0 !in p
    ensures |p| < |b| ==> b[|p|] == 0
  {
    if b == [] || b[0] == 0 then [] else [b[0]] + UpToNul(b[1..])
  }

  function NameStr(name: bytes): (s: Text) {
    var s := UpToNul(name);
    if FromUtf8(s).Good? then s else []
  }

  function PackNameBytes(b: bytes): (r: Option<bytes>) {
    match FromUtf8(b)
    case Good => Some(PackName(b))
    case Bad(upTo, incomplete) => if incomplete then Some(PackName(b[..upTo])) else None
  }

  /** `out` is the longest whole-character prefix of `b` that fits 24 bytes, and zeros. */
  ghost predicate PacksTo(b: bytes, out: bytes) {
    |out| == 24 && exists e: nat :: LongestPrefix(b, 24, e) && PaddedAfter(b, e, out)
  }

  ghost predicate PaddedAfter(b: bytes, e: nat, out: bytes) {
    e <= |b| && e <= |out| && out[..e] == b[..e] && forall i | e <= i < |out| :: out[i] == 0
  }

  lemma PackNameKeepsLongestPrefix(s: Text)
    ensures LongestPrefix(s, 24, ChunkEnd(s, CAP_NAME_LEN))
  {
    ChunkEndIsLongestPrefix(s, CAP_NAME_LEN);
  }

  /** Every name is packed so. */
  lemma NamePacks(s: Text)
    ensures PacksTo(s, PackName(s))
  {
    PackNameKeepsLongestPrefix(s);
    assert PaddedAfter(s, ChunkEnd(s, CAP_NAME_LEN), PackName(s));
  }

  /** Raw bytes that are taken are packed like text: what of them is text, as far as it fits. */
  lemma RawNamePacks(b: bytes)
    requires PackNameBytes(b).Some?
    ensures PacksTo(b, PackNameBytes(b).value)
  {
    var u := ValidUpTo(b);
    if Valid(b) {
      NamePacks(b);
    } else {
      NamePacks(b[..u]);
      PacksFurther(b, u, PackName(b[..u]));
    }
  }

  lemma PacksFurther(b: bytes, u: nat, out: bytes)
    requires u == ValidUpTo(b) && PacksTo(b[..u], out)
    ensures PacksTo(b, out)
  {
    var e: nat :| LongestPrefix(b[..u], 24, e) && PaddedAfter(b[..u], e, out);
    LongestOfValid(b, u, e);
    assert b[..u][..e] == b[..e];
    assert PaddedAfter(b, e, out);
  }

  lemma LongestOfValid(b: bytes, u: nat, e: nat)
    requires u == ValidUpTo(b) && LongestPrefix(b[..u], 24, e)
    ensures LongestPrefix(b, 24, e)
  {
    assert b[..u][..e] == b[..e];
    forall i | e < i <= 24 && i <= |b|
      ensures !Valid(b[..i])
    {
      if i <= u {
        assert b[..u][..i] == b[..i];
      } else {
        ValidUpToIsLongest(b, i);
      }
    }
  }

  /** What is read back of any packed bytes: those before the first NUL if they are text, and
      nothing otherwise. */
  lemma NameStrIs(b: bytes, p: bytes)
    requires p <= b && 0 !in p && (|p| < |b| ==> b[|p|] == 0)
    ensures NameStr(b) == if Valid(p) then p else []
  {
    var q := UpToNul(b);
    NulStops(b, p, q);
    NulStops(b, q, p);
    assert p == b[..|p|] && q == b[..|p|];
  }

  lemma NulStops(b: bytes, p: bytes, q: bytes)
    requires p <= b && q <= b && 0 !in q && (|p| < |b| ==> b[|p|] == 0)
    ensures |q| <= |p|
  {
    forall i | 0 <= i < |q|
      ensures b[i] != 0
    {
      assert q[i] in q;
    }
  }

  /** A name survives packing up to its first NUL or the longest whole-character prefix
      that fits, whichever is shorter. */
  lemma NameStrOfPackName(s: Text)
    ensures NameStr(PackName(s)) == UpToNul(s[..ChunkEnd(s, CAP_NAME_LEN)])
    ensures 0 !in s ==> NameStr(PackName(s)) == s[..ChunkEnd(s, CAP_NAME_LEN)]
    ensures 0 !in s && |s| <= CAP_NAME_LEN ==> NameStr(PackName(s)) == s
  {
    var t := s[..ChunkEnd(s, CAP_NAME_LEN)];
    PackNameKeepsLongestPrefix(s);
    UpToNulOfPadded(t, CAP_NAME_LEN - |t|);
    UpToNulIsText(t);
  }

  lemma UpToNulIsText(t: bytes)
    requires Valid(t)
    ensures Valid(UpToNul(t))
    ensures 0 !in t ==> UpToNul(t) == t
  {
    var p := UpToNul(t);
    assert p == t[..|p|];
    ValidSplit(t, |p|);
  }

  lemma {:induction false} UpToNulOfPadded(t: bytes, pad: nat)
    ensures UpToNul(t + Repeat(0, pad)) == UpToNul(t)
  {
    if t == [] {
      assert t + Repeat(0, pad) == Repeat(0, pad);
    } else {
      assert (t + Repeat(0, pad))[1..] == t[1..] + Repeat(0, pad);
      UpToNulOfPadded(t[1..], pad);
    }
  }

  /** A fixed-size read of a name packs exactly like the whole name. */
  lemma NamingPathsAgree(s: Text)
    ensures PackNameBytes(s[..Min(|s|, CAP_NAME_LEN)]) == Some(PackName(s))
  {
    var n := Min(|s|, CAP_NAME_LEN);
    var cut := s[..n];
    CutValidText(s, n);
    PackNameKeepsLongestPrefix(s);
    var u := ValidUpTo(cut);
    var e := ChunkEnd(s, CAP_NAME_LEN);
    assert u == e;
    assert cut[..u] == s[..e];
    assert cut[u..] == s[u..n];
    assert s[..e][..e] == s[..e];
    if u == n {
      assert cut == s[..e];
    }
  }

  lemma TakenIfExtendable(b: bytes, rest: bytes)
    requires Valid(b + rest)
    ensures PackNameBytes(b).Some?
  {
    var u := ValidUpTo(b);
    assert (b + rest)[..|b|] == b;
    CutValidText(b + rest, |b|);
    assert (b + rest)[u..|b|] == b[u..];
  }

  lemma ExtendableIfTaken(b: bytes) returns (rest: bytes)
    requires PackNameBytes(b).Some?
    ensures Valid(b + rest)
  {
    var u := ValidUpTo(b);
    if Valid(b) {
      rest := [];
      assert b + [] == b;
    } else {
      rest := Completion(b[u..]);
      Finished(b, u, rest);
    }
  }

  lemma Finished(b: bytes, u: nat, rest: bytes)
    requires u <= |b| && Valid(b[..u]) && Valid(b[u..] + rest)
    ensures Valid(b + rest)
  {
    ValidConcat(b[..u], b[u..] + rest);
    Regroup(b, u, rest);
  }

  lemma Regroup(b: bytes, u: nat, rest: bytes)
    requires u <= |b|
    ensures b[..u] + (b[u..] + rest) == b + rest
  {
    assert b[..u] + b[u..] == b;
    ConcatAssociate(b[..u], b[u..], rest);
  }

  /** Raw bytes are refused exactly when no continuation would make them text. */
  lemma RefusedIffUnextendable(b: bytes)
    ensures PackNameBytes(b).None? <==> forall rest: bytes :: !Valid(b + rest)
  {
    forall rest: bytes | Valid(b + rest)
      ensures PackNameBytes(b).Some?
    {
      TakenIfExtendable(b, rest);
    }
    if PackNameBytes(b).Some? {
      var rest := ExtendableIfTaken(b);
    }
  }

  lemma Completion(tail: bytes) returns (rest: bytes)
    requires Incomplete(tail)
    ensures Valid(tail + rest)
  {
    var second: u8 :=
      if tail[0] == 0xE0 then 0xA0 else if tail[0] == 0xF0 then 0x90 else 0x80;
    var full := [tail[0], second, 0x80, 0x80];
    rest := full[|tail|..Width(tail[0])];
    var b := tail + rest;
    assert forall i | |tail| <= i < |b| :: b[i] == full[i];
    assert Width(b[0]) == |b| && Follows(b);
    assert b[CharLen(b)..] == [];
  }
}
