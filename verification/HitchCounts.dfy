/** How many items a packed sequence can hold for the bytes it takes (hitch/src/lib.rs). */
module HitchCounts {
  import opened Words
  import opened HitchSchema
  import opened HitchPacked
  import opened HitchRoundTrip

  /** The shapes whose values take no bytes: products of nothing but such shapes. */
  predicate Weightless(s: TypeSchema) {
    s.Product? && forall i | 0 <= i < |s.fields| :: Weightless(s.fields[i].shape)
  }

  ghost predicate AllWeightless(fields: seq<SchemaField>) {
    forall i | 0 <= i < |fields| :: Weightless(fields[i].shape)
  }

  // ---- Weightless shapes read nothing

  lemma {:induction false} WeightlessReads(c: FloatConv, s: TypeSchema, b: bytes)
    requires Weightless(s)
    ensures Unpack(c, s, b).Ok? && Unpack(c, s, b).value.rest == b
    decreases s
  {
    WeightlessFieldsRead(c, s.fields, b);
  }

  lemma {:induction false} WeightlessFieldsRead(c: FloatConv, fields: seq<SchemaField>, b: bytes)
    requires AllWeightless(fields)
    ensures UnpackFields(c, fields, b).Ok? && UnpackFields(c, fields, b).value.rest == b
    decreases fields
  {
    if fields != [] {
      assert fields[0] in fields && fields[0].shape < fields[0];
      WeightlessReads(c, fields[0].shape, b);
      WeightlessFieldsRead(c, fields[1..], b);
    }
  }

  /** So any number of them can be read from any bytes at all. */
  lemma {:induction false} AnyCountReads(c: FloatConv, elem: TypeSchema, count: nat, b: bytes)
    requires Weightless(elem)
    ensures var r := UnpackItems(c, elem, count, b); r.Ok? && |r.value.value| == count && r.value.rest == b
    decreases count
  {
    WeightlessReads(c, elem, b);
    if count > 0 {
      AnyCountReads(c, elem, count - 1, b);
    }
  }

  // ---- The others read at least a byte

  lemma {:induction false} WeightyReads(c: FloatConv, s: TypeSchema, b: bytes)
    requires Unpack(c, s, b).Ok? && !Weightless(s)
    ensures |Unpack(c, s, b).value.rest| < |b|
    decreases s
  {
    if s.Seq? {
      UnpackItemsDelimited(c, s.elem, LeNat(b[..4]), b[4..], []);
    } else if s.Product? {
      WeightyFieldsRead(c, s.fields, b);
    } else if s.Sum? {
      UnpackDelimited(c, s.variants[LeNat(b[..4])].shape, b[4..], []);
    } else {
      LeafReads(c, s, b);
    }
  }

  lemma LeafReads(c: FloatConv, s: TypeSchema, b: bytes)
    requires Unpack(c, s, b).Ok? && !s.Seq? && !s.Product? && !s.Sum?
    ensures |Unpack(c, s, b).value.rest| < |b|
  {
    if !s.Str? && !s.Bytes? {
      FixedUnfolds(c, s, b);
    }
  }

  lemma {:induction false} WeightyFieldsRead(c: FloatConv, fields: seq<SchemaField>, b: bytes)
    requires UnpackFields(c, fields, b).Ok? && !AllWeightless(fields)
    ensures |UnpackFields(c, fields, b).value.rest| < |b|
    decreases fields
  {
    assert fields[0] in fields && fields[0].shape < fields[0];
    var mid := Unpack(c, fields[0].shape, b).value.rest;
    UnpackDelimited(c, fields[0].shape, b, []);
    UnpackFieldsDelimited(c, fields[1..], mid, []);
    if Weightless(fields[0].shape) {
      WeightyFieldsRead(c, fields[1..], mid);
    } else {
      WeightyReads(c, fields[0].shape, b);
    }
  }

  /** So no more items are read than bytes. */
  lemma {:induction false} CountBounded(c: FloatConv, elem: TypeSchema, count: nat, b: bytes)
    requires !Weightless(elem)
    ensures var r := UnpackItems(c, elem, count, b); r.Ok? ==> count + |r.value.rest| <= |b|
    decreases count
  {
    if count > 0 && Unpack(c, elem, b).Ok? {
      WeightyReads(c, elem, b);
      CountBounded(c, elem, count - 1, Unpack(c, elem, b).value.rest);
    }
  }

  /** A count never outruns the bytes it counts if and only if the items are of a shape that takes
      bytes. */
  lemma CountBoundedIff(c: FloatConv, elem: TypeSchema)
    ensures !Weightless(elem) <==>
            forall count: nat, b :: UnpackItems(c, elem, count, b).Ok? ==>
              count + |UnpackItems(c, elem, count, b).value.rest| <= |b|
  {
    if Weightless(elem) {
      AnyCountReads(c, elem, 1, []);
    } else {
      forall count: nat, b | UnpackItems(c, elem, count, b).Ok?
        ensures count + |UnpackItems(c, elem, count, b).value.rest| <= |b|
      {
        CountBounded(c, elem, count, b);
      }
    }
  }

  /** Otherwise four bytes are a sequence of as many items as they can count. */
  lemma FourBytesAnyCount(c: FloatConv, elem: TypeSchema, n: u32)
    requires Weightless(elem)
    ensures var r := Unpack(c, TypeSchema.Seq(elem), LeBytes(n, 4) + []);
            r.Ok? && r.value.rest == [] && r.value.value.Seq? && |r.value.value.items| == n
  {
    TakeU32OfLe(n, []);
    AnyCountReads(c, elem, n, []);
  }
}
