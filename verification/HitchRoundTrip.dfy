/** What the packed codec guarantees: it undoes itself, its encodings delimit themselves,
    packing succeeds exactly on sized values the shape accepts, and compatible shapes are
    interchangeable (hitch/src/lib.rs). */
module HitchRoundTrip {
  import opened Words
  import opened HitchSchema
  import opened HitchPacked
  import opened HitchIntegers

  // ---- Unpacking what was packed

  /** The value a reader gets back: type names come from the shape, and a float stored in
      four bytes has been narrowed and widened. */
  function Restore(c: FloatConv, v: Value, s: TypeSchema): (w: Value)
    decreases s, 0
  {
    match s
    case F32 => if v.F64? then Value.F64(c.widen(c.narrow(v.bits))) else v
    case Seq(elem) => if v.Seq? then Value.Seq(RestoreItems(c, v.items, elem)) else v
    case Product(typeName, fields) =>
      if v.Product? && |fields| == |v.fields| then Value.Product(typeName, RestoreFields(c, v.fields, fields)) else v
    case Sum(typeName, variants) =>
      if !v.Sum? then v
      else
        var i := Position(variants, v.variant);
        if i == |variants| then v
        else Value.Sum(typeName, v.variant, Restore(c, v.payload, variants[i].shape))
    case _ => v
  }

  function RestoreItems(c: FloatConv, items: seq<Value>, elem: TypeSchema): (r: seq<Value>)
    ensures |r| == |items|
    decreases elem, |items| + 1
  {
    if items == [] then [] else [Restore(c, items[0], elem)] + RestoreItems(c, items[1..], elem)
  }

  function RestoreFields(c: FloatConv, values: seq<ValueField>, fields: seq<SchemaField>): (r: seq<ValueField>)
    requires |values| == |fields|
    ensures |r| == |fields|
    decreases fields
  {
    if fields == [] then []
    else [RestoreField(c, values[0], fields[0])] + RestoreFields(c, values[1..], fields[1..])
  }

  function RestoreField(c: FloatConv, value: ValueField, field: SchemaField): (r: ValueField)
    decreases field, 1
  {
    ValueField(value.name, Restore(c, value.value, field.shape))
  }

  lemma TakeExactly(b: bytes, rest: bytes)
    ensures TakeBytes(b + rest, |b|) == Ok(Parsed(b, rest))
  {
    assert (b + rest)[..|b|] == b;
    assert (b + rest)[|b|..] == rest;
  }

  lemma TakeU32OfLe(n: u32, rest: bytes)
    ensures TakeU32(LeBytes(n, 4) + rest) == Ok(Parsed(n, rest))
  {
    TakeExactly(LeBytes(n, 4), rest);
    assert Pow256(4) == TWO_32;
    LeNatOfLeBytes(n, 4);
  }

  lemma TakeBlobOfPacked(b: bytes, rest: bytes)
    requires |b| < TWO_32
    ensures TakeBlob(PackBlob(b).value + rest) == Ok(Parsed(b, rest))
  {
    ConcatAssociate(LeBytes(|b|, 4), b, rest);
    TakeU32OfLe(|b|, b + rest);
    TakeExactly(b, rest);
  }

  /** Packed bytes read back to the value, leaving exactly what followed them. */
  lemma {:induction false} UnpackOfPack(c: FloatConv, v: Value, s: TypeSchema, rest: bytes)
    requires Pack(c, v, s).Ok?
    ensures Unpack(c, s, Pack(c, v, s).value + rest) == Ok(Parsed(Restore(c, v, s), rest))
    decreases s, 0
  {
    var b := Pack(c, v, s).value;
    if s.Seq? {
      var n, body := LeBytes(|v.items|, 4), PackItems(c, v.items, s.elem).value;
      ConcatAssociate(n, body, rest);
      TakeU32OfLe(|v.items|, body + rest);
      UnpackOfPackItems(c, v.items, s.elem, body, rest);
    } else if s.Product? {
      UnpackOfPackFields(c, v.fields, s.fields, rest);
    } else if s.Sum? {
      var i := Position(s.variants, v.variant);
      var body := Pack(c, v.payload, s.variants[i].shape).value;
      ConcatAssociate(LeBytes(i, 4), body, rest);
      TakeU32OfLe(i, body + rest);
      UnpackOfPack(c, v.payload, s.variants[i].shape, rest);
    } else {
      UnpackOfPackLeaf(c, v, s, rest);
    }
  }

  lemma UnpackOfPackLeaf(c: FloatConv, v: Value, s: TypeSchema, rest: bytes)
    requires Pack(c, v, s).Ok? && !s.Seq? && !s.Product? && !s.Sum?
    ensures Unpack(c, s, Pack(c, v, s).value + rest) == Ok(Parsed(Restore(c, v, s), rest))
  {
    if s.UintWidth() > 0 {
      UnpackOfPackUint(c, v.u, s, rest);
    } else if s.IntWidth() > 0 {
      UnpackOfPackInt(c, v.i, s, rest);
    } else if s.F32? || s.F64? {
      UnpackOfPackFloat(c, v.bits, s, rest);
    } else if s.Str? {
      TakeBlobOfPacked(v.text, rest);
    } else if s.Bytes? {
      TakeBlobOfPacked(v.data, rest);
    } else {
      TakeExactly([if v.b then 1 else 0], rest);
    }
  }

  lemma UnpackOfPackUint(c: FloatConv, n: u64, s: TypeSchema, rest: bytes)
    requires s.UintWidth() > 0 && PushUint(n, s.UintWidth()).Ok?
    ensures Unpack(c, s, PushUint(n, s.UintWidth()).value + rest) == Ok(Parsed(Value.U64(n), rest))
  {
    TakeExactly(PushUint(n, s.UintWidth()).value, rest);
    UintRoundTrip(n, s.UintWidth());
  }

  lemma UnpackOfPackInt(c: FloatConv, n: i64, s: TypeSchema, rest: bytes)
    requires s.IntWidth() > 0 && PushInt(n, s.IntWidth()).Ok?
    ensures Unpack(c, s, PushInt(n, s.IntWidth()).value + rest) == Ok(Parsed(Value.I64(n), rest))
  {
    TakeExactly(PushInt(n, s.IntWidth()).value, rest);
    IntRoundTrip(n, s.IntWidth());
  }

  lemma UnpackOfPackFloat(c: FloatConv, bits: u64, s: TypeSchema, rest: bytes)
    requires s.F32? || s.F64?
    ensures var b := Pack(c, Value.F64(bits), s).value;
            Unpack(c, s, b + rest) == Ok(Parsed(Restore(c, Value.F64(bits), s), rest))
  {
    if s.F32? {
      TakeExactly(LeBytes(c.narrow(bits), 4), rest);
      assert Pow256(4) == TWO_32;
      LeNatOfLeBytes(c.narrow(bits), 4);
    } else {
      TakeExactly(LeBytes(bits, 8), rest);
      HalfOf8(8);
      LeNatOfLeBytes(bits, 8);
    }
  }

  /** Reading one item and then the others. */
  lemma UnpackItemsCons(
      c: FloatConv, elem: TypeSchema, count: nat, b: bytes, head: Value, mid: bytes, tail: seq<Value>, rest: bytes)
    requires Unpack(c, elem, b) == Ok(Parsed(head, mid))
    requires UnpackItems(c, elem, count, mid) == Ok(Parsed(tail, rest))
    ensures UnpackItems(c, elem, count + 1, b) == Ok(Parsed([head] + tail, rest))
  {
  }

  lemma {:induction false} UnpackOfPackItems(c: FloatConv, items: seq<Value>, elem: TypeSchema, b: bytes, rest: bytes)
    requires PackItems(c, items, elem) == Ok(b)
    ensures UnpackItems(c, elem, |items|, b + rest) == Ok(Parsed(RestoreItems(c, items, elem), rest))
    decreases elem, |items| + 1
  {
    if items == [] {
      assert [] + rest == rest;
    } else {
      var head, tail := Pack(c, items[0], elem).value, PackItems(c, items[1..], elem).value;
      UnpackOfPackItems(c, items[1..], elem, tail, rest);
      assert Unpack(c, elem, b + rest) == Ok(Parsed(Restore(c, items[0], elem), tail + rest)) by {
        ConcatAssociate(head, tail, rest);
        UnpackOfPack(c, items[0], elem, tail + rest);
      }
      UnpackItemsCons(c, elem, |items[1..]|, b + rest, Restore(c, items[0], elem), tail + rest,
                      RestoreItems(c, items[1..], elem), rest);
    }
  }

  lemma {:induction false} UnpackOfPackFields(
      c: FloatConv, values: seq<ValueField>, fields: seq<SchemaField>, rest: bytes)
    requires |values| == |fields| && PackFields(c, values, fields).Ok?
    ensures UnpackFields(c, fields, PackFields(c, values, fields).value + rest)
            == Ok(Parsed(RestoreFields(c, values, fields), rest))
    decreases fields
  {
    if fields == [] {
      assert [] + rest == rest;
    } else {
      var head := PackField(c, values[0], fields[0]).value;
      var tail := PackFields(c, values[1..], fields[1..]).value;
      ConcatAssociate(head, tail, rest);
      assert fields[0] in fields && fields[0].shape < fields[0];
      UnpackOfPack(c, values[0].value, fields[0].shape, tail + rest);
      UnpackOfPackFields(c, values[1..], fields[1..], rest);
    }
  }

  /** `unhitch_packed` undoes `hitch_packed`. */
  lemma UnhitchOfHitch(c: FloatConv, v: Value, s: TypeSchema)
    requires Pack(c, v, s).Ok?
    ensures Unhitch(c, Pack(c, v, s).value, s) == Ok(Restore(c, v, s))
  {
    UnpackOfPack(c, v, s, []);
    assert Pack(c, v, s).value + [] == Pack(c, v, s).value;
  }

  /** No shape here stores a float in four bytes. */
  predicate NoF32(s: TypeSchema) {
    match s
    case F32 => false
    case Seq(elem) => NoF32(elem)
    case Product(_, fields) => forall i | 0 <= i < |fields| :: NoF32(fields[i].shape)
    case Sum(_, variants) => forall i | 0 <= i < |variants| :: NoF32(variants[i].shape)
    case _ => true
  }

  lemma RestoreItemsAt(c: FloatConv, items: seq<Value>, elem: TypeSchema, i: nat)
    requires i < |items|
    ensures RestoreItems(c, items, elem)[i] == Restore(c, items[i], elem)
  {
    if i > 0 {
      RestoreItemsAt(c, items[1..], elem, i - 1);
    }
  }

  lemma RestoreFieldsAt(c: FloatConv, values: seq<ValueField>, fields: seq<SchemaField>, i: nat)
    requires i < |fields| == |values|
    ensures RestoreFields(c, values, fields)[i] == RestoreField(c, values[i], fields[i])
  {
    if i > 0 {
      RestoreFieldsAt(c, values[1..], fields[1..], i - 1);
    }
  }

  /** Without four-byte floats, what is restored differs from the original only in type names. */
  lemma {:induction false} RestoreIsSameValue(c: FloatConv, v: Value, s: TypeSchema)
    requires NoF32(s)
    ensures SameValue(v, Restore(c, v, s))
    decreases s
  {
    match s
    case Seq(elem) =>
      if v.Seq? {
        forall i | 0 <= i < |v.items| ensures SameValue(v.items[i], RestoreItems(c, v.items, elem)[i]) {
          RestoreItemsAt(c, v.items, elem, i);
          RestoreIsSameValue(c, v.items[i], elem);
        }
      } else {
        SameValueReflexive(v);
      }
    case Product(_, fields) =>
      if v.Product? && |fields| == |v.fields| {
        forall i | 0 <= i < |fields|
          ensures v.fields[i].name == RestoreFields(c, v.fields, fields)[i].name
          ensures SameValue(v.fields[i].value, RestoreFields(c, v.fields, fields)[i].value)
        {
          RestoreFieldsAt(c, v.fields, fields, i);
          RestoreIsSameValue(c, v.fields[i].value, fields[i].shape);
        }
      } else {
        SameValueReflexive(v);
      }
    case Sum(_, variants) =>
      if v.Sum? && Position(variants, v.variant) < |variants| {
        RestoreIsSameValue(c, v.payload, variants[Position(variants, v.variant)].shape);
      } else {
        SameValueReflexive(v);
      }
    case _ => SameValueReflexive(v);
  }

  lemma SameValueReflexive(v: Value)
    ensures SameValue(v, v)
  {
  }

  lemma {:induction false} SameValueSymmetric(v: Value, w: Value)
    requires SameValue(v, w)
    ensures SameValue(w, v)
    decreases v
  {
    match v
    case Seq(items) =>
      forall i | 0 <= i < |items| ensures SameValue(w.items[i], items[i]) {
        SameValueSymmetric(items[i], w.items[i]);
      }
    case Product(_, fields) =>
      forall i | 0 <= i < |fields| ensures SameValue(w.fields[i].value, fields[i].value) {
        SameValueSymmetric(fields[i].value, w.fields[i].value);
      }
    case Sum(_, _, payload) => SameValueSymmetric(payload, w.payload);
    case _ =>
  }

  lemma {:induction false} SameValueTransitive(u: Value, v: Value, w: Value)
    requires SameValue(u, v) && SameValue(v, w)
    ensures SameValue(u, w)
    decreases u
  {
    match u
    case Seq(items) =>
      forall i | 0 <= i < |items| ensures SameValue(items[i], w.items[i]) {
        SameValueTransitive(items[i], v.items[i], w.items[i]);
      }
    case Product(_, fields) =>
      forall i | 0 <= i < |fields| ensures SameValue(fields[i].value, w.fields[i].value) {
        SameValueTransitive(fields[i].value, v.fields[i].value, w.fields[i].value);
      }
    case Sum(_, _, payload) => SameValueTransitive(payload, v.payload, w.payload);
    case _ =>
  }

  /** Equality up to type names is an equivalence. */
  lemma SameValueIsEquivalence(u: Value, v: Value, w: Value)
    ensures SameValue(v, v)
    ensures SameValue(v, w) ==> SameValue(w, v)
    ensures SameValue(u, v) && SameValue(v, w) ==> SameValue(u, w)
  {
    SameValueReflexive(v);
    if SameValue(v, w) {
      SameValueSymmetric(v, w);
      if SameValue(u, v) { SameValueTransitive(u, v, w); }
    }
  }

  // ---- Self-delimiting reads

  /** The bytes a read took off the front of `b`. */
  function Front(b: bytes, rest: bytes): (w: bytes)
    requires |rest| <= |b|
  {
    b[..|b| - |rest|]
  }

  ghost predicate Suffix(b: bytes, rest: bytes) {
    |rest| <= |b| && b[|b| - |rest|..] == rest
  }

  lemma FrontCompose(b: bytes, mid: bytes, rest: bytes, more: bytes)
    requires Suffix(b, mid) && Suffix(mid, rest)
    ensures Suffix(b, rest)
    ensures Front(b, rest) == Front(b, mid) + Front(mid, rest)
    ensures Front(b, rest) + more == Front(b, mid) + (Front(mid, rest) + more)
  {
    ConcatAssociate(Front(b, mid), Front(mid, rest), rest);
    ConcatAssociate(Front(b, mid), Front(mid, rest), more);
  }

  lemma TakeDelimited(b: bytes, n: nat, more: bytes)
    requires TakeBytes(b, n).Ok?
    ensures Suffix(b, b[n..]) && Front(b, b[n..]) == b[..n]
    ensures TakeBytes(b[..n] + more, n) == Ok(Parsed(b[..n], more))
  {
    TakeExactly(b[..n], more);
  }

  /** A read depends only on the bytes it takes: it yields the same value whatever follows. */
  lemma {:induction false} UnpackDelimited(c: FloatConv, s: TypeSchema, b: bytes, more: bytes)
    requires Unpack(c, s, b).Ok?
    ensures Suffix(b, Unpack(c, s, b).value.rest)
    ensures Unpack(c, s, Front(b, Unpack(c, s, b).value.rest) + more) == Ok(Parsed(Unpack(c, s, b).value.value, more))
    decreases s, 0
  {
    var rest := Unpack(c, s, b).value.rest;
    if s.Seq? {
      TakeDelimited(b, 4, Front4(c, s, b) + more);
      UnpackItemsDelimited(c, s.elem, LeNat(b[..4]), b[4..], more);
      FrontCompose(b, b[4..], rest, more);
    } else if s.Product? {
      UnpackFieldsDelimited(c, s.fields, b, more);
    } else if s.Sum? {
      TakeDelimited(b, 4, Front4(c, s, b) + more);
      UnpackDelimited(c, s.variants[LeNat(b[..4])].shape, b[4..], more);
      FrontCompose(b, b[4..], rest, more);
    } else {
      UnpackLeafDelimited(c, s, b, more, Unpack(c, s, b).value.value, rest);
    }
  }

  /** What a read takes after its four-byte count or index. */
  ghost function Front4(c: FloatConv, s: TypeSchema, b: bytes): (w: bytes)
    requires Unpack(c, s, b).Ok? && |b| >= 4
  {
    var rest := Unpack(c, s, b).value.rest;
    if |rest| <= |b[4..]| then Front(b[4..], rest) else []
  }

  lemma UnpackLeafDelimited(c: FloatConv, s: TypeSchema, b: bytes, more: bytes, v: Value, rest: bytes)
    requires Unpack(c, s, b) == Ok(Parsed(v, rest)) && !s.Seq? && !s.Product? && !s.Sum?
    ensures Suffix(b, rest) && Unpack(c, s, Front(b, rest) + more) == Ok(Parsed(v, more))
  {
    if s.Str? || s.Bytes? {
      TakeBlobDelimited(b, more, if s.Str? then v.text else v.data, rest);
    } else {
      FixedUnfolds(c, s, b);
      TakeDelimited(b, FixedWidth(s), more);
      FixedUnfolds(c, s, b[..FixedWidth(s)] + more);
    }
  }

  lemma TakeBlobDelimited(b: bytes, more: bytes, blob: bytes, rest: bytes)
    requires TakeBlob(b) == Ok(Parsed(blob, rest))
    ensures Suffix(b, rest) && TakeBlob(Front(b, rest) + more) == Ok(Parsed(blob, more))
  {
    TakeDelimited(b[4..], |blob|, more);
    TakeDelimited(b, 4, blob + more);
    FrontCompose(b, b[4..], rest, more);
  }

  /** The bytes a number or a flag takes. */
  function FixedWidth(s: TypeSchema): (n: nat) {
    if s.Bool? then 1 else if s.F32? then 4 else if s.F64? then 8 else s.UintWidth() + s.IntWidth()
  }

  /** What a number or a flag reads from its own bytes. */
  ghost function FixedValue(c: FloatConv, s: TypeSchema, raw: bytes): (r: Result<Value>)
    requires |raw| == FixedWidth(s) > 0
  {
    assert Pow256(4) == TWO_32 && Pow256(8) == TWO_64;
    if s.Bool? then if raw[0] <= 1 then Ok(Value.Bool(raw[0] == 1)) else Err(SchemaMismatch)
    else if s.F32? then Ok(Value.F64(c.widen(LeNat(raw))))
    else if s.F64? then Ok(Value.F64(LeNat(raw)))
    else if s.UintWidth() > 0 then Ok(Value.U64(ZeroExtend(raw)))
    else Ok(Value.I64(SignExtend(raw)))
  }

  lemma FixedUnfolds(c: FloatConv, s: TypeSchema, b: bytes)
    requires FixedWidth(s) > 0
    ensures Unpack(c, s, b) ==
            if |b| < FixedWidth(s) then Err(UnexpectedEnd)
            else if FixedValue(c, s, b[..FixedWidth(s)]).Err? then Err(SchemaMismatch)
            else Ok(Parsed(FixedValue(c, s, b[..FixedWidth(s)]).value, b[FixedWidth(s)..]))
  {
  }

  lemma {:induction false} UnpackItemsDelimited(c: FloatConv, elem: TypeSchema, count: nat, b: bytes, more: bytes)
    requires UnpackItems(c, elem, count, b).Ok?
    ensures Suffix(b, UnpackItems(c, elem, count, b).value.rest)
    ensures UnpackItems(c, elem, count, Front(b, UnpackItems(c, elem, count, b).value.rest) + more)
            == Ok(Parsed(UnpackItems(c, elem, count, b).value.value, more))
    decreases elem, count + 1
  {
    var rest := UnpackItems(c, elem, count, b).value.rest;
    if count == 0 {
      assert Front(b, b) + more == more;
    } else {
      var mid := Unpack(c, elem, b).value.rest;
      UnpackItemsDelimited(c, elem, count - 1, mid, more);
      UnpackDelimited(c, elem, b, Front(mid, rest) + more);
      FrontCompose(b, mid, rest, more);
    }
  }

  lemma {:induction false} UnpackFieldsDelimited(c: FloatConv, fields: seq<SchemaField>, b: bytes, more: bytes)
    requires UnpackFields(c, fields, b).Ok?
    ensures Suffix(b, UnpackFields(c, fields, b).value.rest)
    ensures UnpackFields(c, fields, Front(b, UnpackFields(c, fields, b).value.rest) + more)
            == Ok(Parsed(UnpackFields(c, fields, b).value.value, more))
    decreases fields
  {
    var rest := UnpackFields(c, fields, b).value.rest;
    if fields == [] {
      assert Front(b, b) + more == more;
    } else {
      assert fields[0] in fields && fields[0].shape < fields[0];
      var mid := Unpack(c, fields[0].shape, b).value.rest;
      UnpackFieldsDelimited(c, fields[1..], mid, more);
      UnpackDelimited(c, fields[0].shape, b, Front(mid, rest) + more);
      FrontCompose(b, mid, rest, more);
    }
  }

  /** Under one shape no encoding is a proper prefix of another, and equal encodings restore
      to equal values. */
  lemma PrefixFree(c: FloatConv, s: TypeSchema, v: Value, w: Value)
    requires Pack(c, v, s).Ok? && Pack(c, w, s).Ok?
    requires Pack(c, v, s).value <= Pack(c, w, s).value
    ensures Pack(c, v, s) == Pack(c, w, s) && Restore(c, v, s) == Restore(c, w, s)
  {
    var a, b := Pack(c, v, s).value, Pack(c, w, s).value;
    UnpackOfPack(c, v, s, b[|a|..]);
    UnpackOfPack(c, w, s, []);
    SameRead(c, s, a, b, Restore(c, v, s), Restore(c, w, s));
  }

  lemma SameRead(c: FloatConv, s: TypeSchema, a: bytes, b: bytes, x: Value, y: Value)
    requires a <= b
    requires Unpack(c, s, a + b[|a|..]) == Ok(Parsed(x, b[|a|..])) && Unpack(c, s, b + []) == Ok(Parsed(y, []))
    ensures a == b && x == y
  {
    assert a + b[|a|..] == b && b + [] == b;
  }

  /** Without four-byte floats equal encodings come from values equal up to type names. */
  lemma PackInjective(c: FloatConv, s: TypeSchema, v: Value, w: Value)
    requires NoF32(s) && Pack(c, v, s).Ok? && Pack(c, v, s) == Pack(c, w, s)
    ensures SameValue(v, w)
  {
    PrefixFree(c, s, v, w);
    RestoreIsSameValue(c, v, s);
    RestoreIsSameValue(c, w, s);
    SameValueSymmetric(w, Restore(c, w, s));
    SameValueTransitive(v, Restore(c, v, s), w);
  }
}
