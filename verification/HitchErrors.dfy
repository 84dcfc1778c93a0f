/** What each way of failing to decode means (hitch/src/lib.rs). */
module HitchErrors {
  import opened Words
  import opened HitchSchema
  import opened HitchPacked
  import opened HitchRoundTrip

  /** What a read says, whatever it leaves unread. */
  ghost function Answer<T>(r: Result<Parsed<T>>): (a: Result<T>) {
    if r.Ok? then Ok(r.value.value) else Err(r.error)
  }

  /** A read that needs more bytes than there are. */
  ghost predicate Short<T>(r: Result<Parsed<T>>) { r == Err(UnexpectedEnd) }

  // ---- An answer other than running short does not change with what follows

  lemma TakeSettled(b: bytes, n: nat, more: bytes)
    ensures TakeBytes(b, n).Ok? ==> TakeBytes(b + more, n) == Ok(Parsed(b[..n], b[n..] + more))
    ensures TakeBytes(b, n).Err? ==> Short(TakeBytes(b, n))
  {
    if n <= |b| {
      assert (b + more)[..n] == b[..n] && (b + more)[n..] == b[n..] + more;
    }
  }

  /** The same answer, and what follows is left behind what was left before. */
  ghost predicate Settled<T>(r: Result<Parsed<T>>, r': Result<Parsed<T>>, more: bytes) {
    if r.Ok? then r' == Ok(Parsed(r.value.value, r.value.rest + more))
    else r.error == UnexpectedEnd || r' == r
  }

  lemma TakeU32Settled(b: bytes, more: bytes)
    ensures Settled(TakeU32(b), TakeU32(b + more), more)
  {
    TakeSettled(b, 4, more);
  }

  lemma TakeBlobSettled(b: bytes, more: bytes)
    ensures Settled(TakeBlob(b), TakeBlob(b + more), more)
  {
    TakeU32Settled(b, more);
    if TakeU32(b).Ok? {
      TakeSettled(TakeU32(b).value.rest, TakeU32(b).value.value, more);
    }
  }

  lemma LeafSettled(c: FloatConv, s: TypeSchema, b: bytes, more: bytes)
    requires !s.Seq? && !s.Product? && !s.Sum?
    ensures Settled(Unpack(c, s, b), Unpack(c, s, b + more), more)
  {
    if s.Str? || s.Bytes? {
      TakeBlobSettled(b, more);
    } else {
      TakeSettled(b, FixedWidth(s), more);
      FixedUnfolds(c, s, b);
      FixedUnfolds(c, s, b + more);
    }
  }

  lemma {:induction false} UnpackSettled(c: FloatConv, s: TypeSchema, b: bytes, more: bytes)
    ensures Settled(Unpack(c, s, b), Unpack(c, s, b + more), more)
    decreases s, 1
  {
    if s.Seq? {
      TakeU32Settled(b, more);
      if TakeU32(b).Ok? { ItemsSettled(c, s.elem, TakeU32(b).value.value, TakeU32(b).value.rest, more); }
    } else if s.Product? {
      FieldsSettled(c, s.fields, b, more);
    } else if s.Sum? {
      SumSettled(c, s, b, more);
    } else {
      LeafSettled(c, s, b, more);
    }
  }

  lemma {:induction false} SumSettled(c: FloatConv, s: TypeSchema, b: bytes, more: bytes)
    requires s.Sum?
    ensures Settled(Unpack(c, s, b), Unpack(c, s, b + more), more)
    decreases s, 0
  {
    TakeU32Settled(b, more);
    if TakeU32(b).Ok? && TakeU32(b).value.value < |s.variants| {
      UnpackSettled(c, s.variants[TakeU32(b).value.value].shape, TakeU32(b).value.rest, more);
    }
  }

  lemma {:induction false} ItemsSettled(c: FloatConv, elem: TypeSchema, count: nat, b: bytes, more: bytes)
    ensures Settled(UnpackItems(c, elem, count, b), UnpackItems(c, elem, count, b + more), more)
    decreases elem, count + 2
  {
    if count > 0 {
      UnpackSettled(c, elem, b, more);
      if Unpack(c, elem, b).Ok? { ItemsSettled(c, elem, count - 1, Unpack(c, elem, b).value.rest, more); }
    }
  }

  lemma {:induction false} FieldsSettled(c: FloatConv, fields: seq<SchemaField>, b: bytes, more: bytes)
    ensures Settled(UnpackFields(c, fields, b), UnpackFields(c, fields, b + more), more)
    decreases fields
  {
    if fields != [] {
      assert fields[0] in fields && fields[0].shape < fields[0];
      UnpackSettled(c, fields[0].shape, b, more);
      if Unpack(c, fields[0].shape, b).Ok? {
        FieldsSettled(c, fields[1..], Unpack(c, fields[0].shape, b).value.rest, more);
      }
    }
  }

  // ---- Running short is never final

  lemma Restart(b: bytes, x: bytes, y: bytes)
    ensures b + x + y == b + (x + y)
  {
  }

  lemma TakeEnough(b: bytes, n: nat) returns (more: bytes)
    ensures TakeBytes(b + more, n).Ok?
  {
    more := Repeat(0, n);
  }

  lemma TakeU32Enough(b: bytes) returns (more: bytes)
    ensures TakeU32(b + more).Ok?
  {
    more := TakeEnough(b, 4);
  }

  lemma TakeBlobEnough(b: bytes) returns (more: bytes)
    ensures TakeBlob(b + more).Ok?
  {
    var x := TakeU32Enough(b);
    var len := TakeU32(b + x).value;
    var y := TakeEnough(len.rest, len.value);
    TakeU32Settled(b + x, y);
    Restart(b, x, y);
    more := x + y;
  }

  lemma LeafEnough(c: FloatConv, s: TypeSchema, b: bytes) returns (more: bytes)
    requires !s.Seq? && !s.Product? && !s.Sum?
    ensures !Short(Unpack(c, s, b + more))
  {
    if s.Str? || s.Bytes? {
      more := TakeBlobEnough(b);
    } else {
      more := TakeEnough(b, FixedWidth(s));
      FixedUnfolds(c, s, b + more);
    }
  }

  /** Some bytes always settle a read, one way or the other. */
  lemma {:induction false} UnpackEnough(c: FloatConv, s: TypeSchema, b: bytes) returns (more: bytes)
    ensures !Short(Unpack(c, s, b + more))
    decreases s, 1
  {
    if s.Seq? {
      var x := TakeU32Enough(b);
      var count := TakeU32(b + x).value;
      var y := ItemsEnough(c, s.elem, count.value, count.rest);
      TakeU32Settled(b + x, y);
      Restart(b, x, y);
      more := x + y;
    } else if s.Product? {
      more := FieldsEnough(c, s.fields, b);
    } else if s.Sum? {
      more := SumEnough(c, s, b);
    } else {
      more := LeafEnough(c, s, b);
    }
  }

  lemma {:induction false} SumEnough(c: FloatConv, s: TypeSchema, b: bytes) returns (more: bytes)
    requires s.Sum?
    ensures !Short(Unpack(c, s, b + more))
    decreases s, 0
  {
    more := TakeU32Enough(b);
    var i := TakeU32(b + more).value;
    if i.value < |s.variants| {
      var y := UnpackEnough(c, s.variants[i.value].shape, i.rest);
      TakeU32Settled(b + more, y);
      Restart(b, more, y);
      more := more + y;
    }
  }

  lemma {:induction false} ItemsEnough(c: FloatConv, elem: TypeSchema, count: nat, b: bytes) returns (more: bytes)
    ensures !Short(UnpackItems(c, elem, count, b + more))
    decreases elem, count + 2
  {
    more := [];
    if count > 0 {
      more := UnpackEnough(c, elem, b);
      var head := Unpack(c, elem, b + more);
      if head.Ok? {
        var y := ItemsEnough(c, elem, count - 1, head.value.rest);
        UnpackSettled(c, elem, b + more, y);
        Restart(b, more, y);
        more := more + y;
      }
    }
  }

  lemma {:induction false} FieldsEnough(c: FloatConv, fields: seq<SchemaField>, b: bytes) returns (more: bytes)
    ensures !Short(UnpackFields(c, fields, b + more))
    decreases fields
  {
    more := [];
    if fields != [] {
      assert fields[0] in fields && fields[0].shape < fields[0];
      more := UnpackEnough(c, fields[0].shape, b);
      var head := Unpack(c, fields[0].shape, b + more);
      if head.Ok? {
        var y := FieldsEnough(c, fields[1..], head.value.rest);
        UnpackSettled(c, fields[0].shape, b + more, y);
        Restart(b, more, y);
        more := more + y;
      }
    }
  }

  // ---- The theorems

  /** A read ends too soon if and only if more bytes could change its answer. */
  lemma ShortIff(c: FloatConv, s: TypeSchema, b: bytes)
    ensures Unpack(c, s, b) == Err(UnexpectedEnd) <==>
            exists more :: Answer(Unpack(c, s, b + more)) != Answer(Unpack(c, s, b))
  {
    if Short(Unpack(c, s, b)) {
      var more := UnpackEnough(c, s, b);
      assert Answer(Unpack(c, s, b + more)) != Answer(Unpack(c, s, b));
    } else {
      forall more
        ensures Answer(Unpack(c, s, b + more)) == Answer(Unpack(c, s, b))
      {
        UnpackSettled(c, s, b, more);
      }
    }
  }

  lemma ReadIsPrefix(c: FloatConv, s: TypeSchema, b: bytes, n: int)
    requires Unpack(c, s, b).Ok? && n == |b| - |Unpack(c, s, b).value.rest|
    ensures 0 <= n <= |b| && Unhitch(c, b[..n], s).Ok?
  {
    var rest := Unpack(c, s, b).value.rest;
    UnpackDelimited(c, s, b, []);
    assert Front(b, rest) + [] == b[..n];
  }

  lemma PrefixTrails(c: FloatConv, s: TypeSchema, b: bytes, n: nat)
    requires n < |b| && Unhitch(c, b[..n], s).Ok?
    ensures Unhitch(c, b, s) == Err(TrailingBytes)
  {
    assert b == b[..n] + b[n..];
    UnpackSettled(c, s, b[..n], b[n..]);
    assert [] + b[n..] == b[n..];
  }

  /** Bytes are trailing if and only if fewer of them decode. */
  lemma TrailingIff(c: FloatConv, s: TypeSchema, b: bytes)
    ensures Unhitch(c, b, s) == Err(TrailingBytes) <==> exists n | 0 <= n < |b| :: Unhitch(c, b[..n], s).Ok?
  {
    NeverTrailing(c, s, b);
    if Unpack(c, s, b).Ok? {
      ReadIsPrefix(c, s, b, |b| - |Unpack(c, s, b).value.rest|);
    }
    forall n | 0 <= n < |b| && Unhitch(c, b[..n], s).Ok?
      ensures Unhitch(c, b, s) == Err(TrailingBytes)
    {
      PrefixTrails(c, s, b, n);
    }
  }

  lemma LeafNeverTrailing(c: FloatConv, s: TypeSchema, b: bytes)
    requires !s.Seq? && !s.Product? && !s.Sum?
    ensures Unpack(c, s, b) != Err(TrailingBytes)
  {
    if !s.Str? && !s.Bytes? {
      FixedUnfolds(c, s, b);
    }
  }

  /** A read by itself never minds what follows. */
  lemma {:induction false} NeverTrailing(c: FloatConv, s: TypeSchema, b: bytes)
    ensures Unpack(c, s, b) != Err(TrailingBytes)
    decreases s, 0
  {
    if s.Seq? {
      if TakeU32(b).Ok? { ItemsNeverTrailing(c, s.elem, TakeU32(b).value.value, TakeU32(b).value.rest); }
    } else if s.Product? {
      FieldsNeverTrailing(c, s.fields, b);
    } else if s.Sum? {
      if TakeU32(b).Ok? && TakeU32(b).value.value < |s.variants| {
        NeverTrailing(c, s.variants[TakeU32(b).value.value].shape, TakeU32(b).value.rest);
      }
    } else {
      LeafNeverTrailing(c, s, b);
    }
  }

  lemma {:induction false} ItemsNeverTrailing(c: FloatConv, elem: TypeSchema, count: nat, b: bytes)
    ensures UnpackItems(c, elem, count, b) != Err(TrailingBytes)
    decreases elem, count + 1
  {
    if count > 0 {
      NeverTrailing(c, elem, b);
      if Unpack(c, elem, b).Ok? { ItemsNeverTrailing(c, elem, count - 1, Unpack(c, elem, b).value.rest); }
    }
  }

  lemma {:induction false} FieldsNeverTrailing(c: FloatConv, fields: seq<SchemaField>, b: bytes)
    ensures UnpackFields(c, fields, b) != Err(TrailingBytes)
    decreases fields
  {
    if fields != [] {
      assert fields[0] in fields && fields[0].shape < fields[0];
      NeverTrailing(c, fields[0].shape, b);
      if Unpack(c, fields[0].shape, b).Ok? {
        FieldsNeverTrailing(c, fields[1..], Unpack(c, fields[0].shape, b).value.rest);
      }
    }
  }
}
