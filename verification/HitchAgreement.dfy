/** When packing succeeds, and what compatible shapes may be swapped for
    (hitch/src/lib.rs, `accepts` and `compatible` against `pack` and `unpack`). */
module HitchAgreement {
  import opened Words
  import opened Utf8
  import opened HitchSchema
  import opened HitchPacked
  import HitchRoundTrip

  // ---- Packing against acceptance

  /** Every length, count and variant index of `v` under `s` fits in a `u32`. */
  predicate LengthsFit(s: TypeSchema, v: Value) {
    match s
    case Str => v.Str? ==> |v.text| < TWO_32
    case Bytes => v.Bytes? ==> |v.data| < TWO_32
    case Seq(elem) =>
      v.Seq? ==> |v.items| < TWO_32 && forall i | 0 <= i < |v.items| :: LengthsFit(elem, v.items[i])
    case Product(_, fields) =>
      v.Product? && |fields| == |v.fields| ==>
        forall i | 0 <= i < |fields| :: LengthsFit(fields[i].shape, v.fields[i].value)
    case Sum(_, variants) =>
      v.Sum? ==>
        var i := Position(variants, v.variant);
        i < |variants| ==> i < TWO_32 && LengthsFit(variants[i].shape, v.payload)
    case _ => true
  }

  /** Wherever `v` names a variant, the first variant of that name accepts its payload. */
  predicate NotShadowed(s: TypeSchema, v: Value) {
    match s
    case Seq(elem) => v.Seq? ==> forall i | 0 <= i < |v.items| :: NotShadowed(elem, v.items[i])
    case Product(_, fields) =>
      v.Product? && |fields| == |v.fields| ==>
        forall i | 0 <= i < |fields| :: NotShadowed(fields[i].shape, v.fields[i].value)
    case Sum(_, variants) =>
      v.Sum? ==>
        var i := Position(variants, v.variant);
        i < |variants| ==> Accepts(variants[i].shape, v.payload) && NotShadowed(variants[i].shape, v.payload)
    case _ => true
  }

  /** Packing succeeds exactly on accepted values whose lengths fit and whose variants are
      not shadowed by an earlier one of the same name. */
  lemma {:induction false} PacksIffAccepted(c: FloatConv, s: TypeSchema, v: Value)
    ensures Pack(c, v, s).Ok? <==> Accepts(s, v) && NotShadowed(s, v) && LengthsFit(s, v)
    decreases s, 0
  {
    if s.Seq? {
      if v.Seq? {
        ItemsPackIffAccepted(c, s.elem, v.items);
        SeqUnfolds(c, s, v);
      }
    } else if s.Product? {
      if v.Product? && |s.fields| == |v.fields| {
        FieldsPackIffAccepted(c, s.fields, v.fields);
        ProductUnfolds(c, s, v);
      }
    } else if s.Sum? {
      if v.Sum? {
        var i := Position(s.variants, v.variant);
        if i < |s.variants| { PacksIffAccepted(c, s.variants[i].shape, v.payload); }
        SumUnfolds(c, s, v);
      }
    } else {
      LeafPacksIffAccepted(c, s, v);
    }
  }

  lemma LeafPacksIffAccepted(c: FloatConv, s: TypeSchema, v: Value)
    requires !s.Seq? && !s.Product? && !s.Sum?
    ensures Pack(c, v, s).Ok? <==> Accepts(s, v) && NotShadowed(s, v) && LengthsFit(s, v)
  {
  }

  /** `v` passes all three tests of `s`. */
  ghost predicate Packable(s: TypeSchema, v: Value) { Accepts(s, v) && NotShadowed(s, v) && LengthsFit(s, v) }

  lemma SeqUnfolds(c: FloatConv, s: TypeSchema, v: Value)
    requires s.Seq? && v.Seq?
    ensures Pack(c, v, s).Ok? <==> |v.items| < TWO_32 && PackItems(c, v.items, s.elem).Ok?
    ensures Packable(s, v) <==> |v.items| < TWO_32 && forall i | 0 <= i < |v.items| :: Packable(s.elem, v.items[i])
  {
  }

  lemma ProductUnfolds(c: FloatConv, s: TypeSchema, v: Value)
    requires s.Product? && v.Product? && |s.fields| == |v.fields|
    ensures Pack(c, v, s) == PackFields(c, v.fields, s.fields)
    ensures Packable(s, v) <==>
            forall i | 0 <= i < |s.fields| ::
              s.fields[i].name == v.fields[i].name && Packable(s.fields[i].shape, v.fields[i].value)
  {
  }

  lemma SumUnfolds(c: FloatConv, s: TypeSchema, v: Value)
    requires s.Sum? && v.Sum?
    ensures var i := Position(s.variants, v.variant);
            if i == |s.variants| then Pack(c, v, s).Err? && !Packable(s, v)
            else && (Pack(c, v, s).Ok? <==> i < TWO_32 && Pack(c, v.payload, s.variants[i].shape).Ok?)
                 && (Packable(s, v) <==> i < TWO_32 && Packable(s.variants[i].shape, v.payload))
  {
  }

  lemma {:induction false} ItemsPackIffAccepted(c: FloatConv, elem: TypeSchema, items: seq<Value>)
    ensures PackItems(c, items, elem).Ok? <==> forall i | 0 <= i < |items| :: Packable(elem, items[i])
    decreases elem, |items| + 1
  {
    if items != [] {
      PacksIffAccepted(c, elem, items[0]);
      ItemsPackIffAccepted(c, elem, items[1..]);
      assert items == [items[0]] + items[1..];
      assert forall i | 0 < i < |items| :: items[i] == items[1..][i - 1];
    }
  }

  lemma {:induction false} FieldsPackIffAccepted(c: FloatConv, fields: seq<SchemaField>, values: seq<ValueField>)
    requires |values| == |fields|
    ensures PackFields(c, values, fields).Ok? <==>
            forall i | 0 <= i < |fields| ::
              fields[i].name == values[i].name && Packable(fields[i].shape, values[i].value)
    decreases fields
  {
    if fields != [] {
      assert fields[0] in fields && fields[0].shape < fields[0];
      PacksIffAccepted(c, fields[0].shape, values[0].value);
      FieldsPackIffAccepted(c, fields[1..], values[1..]);
      assert forall i | 0 < i < |fields| :: fields[i] == fields[1..][i - 1] && values[i] == values[1..][i - 1];
    }
  }

  /** Distinct variant names rule shadowing out. */
  lemma {:induction false} DistinctNamesNotShadowed(s: TypeSchema, v: Value)
    requires DistinctNames(s) && Accepts(s, v)
    ensures NotShadowed(s, v)
    decreases s
  {
    match s
    case Seq(elem) =>
      forall i | 0 <= i < |v.items| ensures NotShadowed(elem, v.items[i]) {
        DistinctNamesNotShadowed(elem, v.items[i]);
      }
    case Product(_, fields) =>
      forall i | 0 <= i < |fields| ensures NotShadowed(fields[i].shape, v.fields[i].value) {
        DistinctNamesNotShadowed(fields[i].shape, v.fields[i].value);
      }
    case Sum(_, variants) =>
      var k :| 0 <= k < |variants| && variants[k].name == v.variant && Accepts(variants[k].shape, v.payload);
      PositionIs(variants, v.variant, k);
      DistinctNamesNotShadowed(variants[k].shape, v.payload);
    case _ =>
  }

  /** With distinct variant names, packing agrees with `accepts` up to lengths. */
  lemma PackAgreesWithAccepts(c: FloatConv, s: TypeSchema, v: Value)
    requires DistinctNames(s)
    ensures Pack(c, v, s).Ok? <==> Accepts(s, v) && LengthsFit(s, v)
  {
    PacksIffAccepted(c, s, v);
    if Accepts(s, v) {
      DistinctNamesNotShadowed(s, v);
    }
  }

  /** A shape with a repeated variant name: the value is accepted, and does not pack. */
  lemma AcceptedButUnpackable(c: FloatConv)
    ensures var s := TypeSchema.Sum([], [Variant([97], TypeSchema.U8), Variant([97], TypeSchema.Bool)]);
            var v := Value.Sum([], [97], Value.Bool(true));
            Accepts(s, v) && LengthsFit(s, v) && Pack(c, v, s) == Err(SchemaMismatch)
  {
    var variants := [Variant([97], TypeSchema.U8), Variant([97], TypeSchema.Bool)];
    assert variants[1].name == [97] && Accepts(variants[1].shape, Value.Bool(true));
    assert Position(variants, [97]) == 0;
  }

  // ---- Compatible shapes are interchangeable

  lemma {:induction false} PositionAgrees(vs: seq<Variant>, ws: seq<Variant>, name: Text)
    requires |vs| == |ws| && forall i | 0 <= i < |vs| :: vs[i].name == ws[i].name
    ensures Position(vs, name) == Position(ws, name)
  {
    if vs != [] {
      PositionAgrees(vs[1..], ws[1..], name);
    }
  }

  /** Compatible shapes pack every value to the same bytes, or refuse it alike. */
  lemma {:induction false} CompatiblePack(c: FloatConv, a: TypeSchema, b: TypeSchema, v: Value)
    requires Compatible(a, b)
    ensures Pack(c, v, a) == Pack(c, v, b)
    decreases a, 0
  {
    if a.Seq? {
      if v.Seq? { CompatiblePackItems(c, a.elem, b.elem, v.items); }
    } else if a.Product? {
      if v.Product? && |a.fields| == |v.fields| { CompatiblePackFields(c, a.fields, b.fields, v.fields); }
    } else if a.Sum? {
      if v.Sum? { CompatiblePackVariant(c, a.variants, b.variants, v.variant, v.payload); }
    } else {
      assert a == b;
    }
  }

  lemma {:induction false} CompatiblePackVariant(
      c: FloatConv, vs: seq<Variant>, ws: seq<Variant>, variant: Text, payload: Value)
    requires |vs| == |ws|
    requires forall i | 0 <= i < |vs| :: vs[i].name == ws[i].name && Compatible(vs[i].shape, ws[i].shape)
    ensures PackVariant(c, variant, payload, vs) == PackVariant(c, variant, payload, ws)
    decreases vs
  {
    PositionAgrees(vs, ws, variant);
    var i := Position(vs, variant);
    if i < |vs| { CompatiblePack(c, vs[i].shape, ws[i].shape, payload); }
  }

  lemma {:induction false} CompatiblePackItems(c: FloatConv, a: TypeSchema, b: TypeSchema, items: seq<Value>)
    requires Compatible(a, b)
    ensures PackItems(c, items, a) == PackItems(c, items, b)
    decreases a, |items| + 1
  {
    if items != [] {
      CompatiblePack(c, a, b, items[0]);
      CompatiblePackItems(c, a, b, items[1..]);
    }
  }

  ghost predicate CompatibleLists(fs: seq<SchemaField>, gs: seq<SchemaField>) {
    |fs| == |gs| &&
    forall i | 0 <= i < |fs| :: fs[i].name == gs[i].name && Compatible(fs[i].shape, gs[i].shape)
  }

  lemma {:induction false} CompatiblePackFields(
      c: FloatConv, fs: seq<SchemaField>, gs: seq<SchemaField>, values: seq<ValueField>)
    requires |values| == |fs| && CompatibleLists(fs, gs)
    ensures PackFields(c, values, fs) == PackFields(c, values, gs)
    decreases fs
  {
    if fs != [] {
      assert fs[0] in fs && fs[0].shape < fs[0];
      CompatiblePack(c, fs[0].shape, gs[0].shape, values[0].value);
      CompatiblePackFields(c, fs[1..], gs[1..], values[1..]);
    }
  }

  /** The same failure, or the same value up to type names with the same bytes left. */
  ghost predicate SameRead(x: Result<Parsed<Value>>, y: Result<Parsed<Value>>) {
    if x.Ok? && y.Ok? then SameValue(x.value.value, y.value.value) && x.value.rest == y.value.rest
    else x.Err? && y.Err? && x.error == y.error
  }

  ghost predicate SameItems(xs: seq<Value>, ys: seq<Value>) {
    |xs| == |ys| && forall i | 0 <= i < |xs| :: SameValue(xs[i], ys[i])
  }

  ghost predicate SameFields(xs: seq<ValueField>, ys: seq<ValueField>) {
    |xs| == |ys| && forall i | 0 <= i < |xs| :: xs[i].name == ys[i].name && SameValue(xs[i].value, ys[i].value)
  }

  ghost predicate SameReads<T(!new)>(
      same: (seq<T>, seq<T>) -> bool, x: Result<Parsed<seq<T>>>, y: Result<Parsed<seq<T>>>)
  {
    if x.Ok? && y.Ok? then same(x.value.value, y.value.value) && x.value.rest == y.value.rest
    else x.Err? && y.Err? && x.error == y.error
  }

  /** Compatible shapes read any bytes alike. */
  lemma {:induction false} CompatibleUnpack(c: FloatConv, a: TypeSchema, b: TypeSchema, data: bytes)
    requires Compatible(a, b)
    ensures SameRead(Unpack(c, a, data), Unpack(c, b, data))
    decreases a, 1
  {
    if a.Seq? {
      var count := TakeU32(data);
      if count.Ok? { CompatibleUnpackItems(c, a.elem, b.elem, count.value.value, count.value.rest); }
    } else if a.Product? {
      CompatibleUnpackFields(c, a.fields, b.fields, data);
    } else if a.Sum? {
      CompatibleUnpackSum(c, a, b, data);
    } else {
      assert a == b;
      SameReadReflexive(Unpack(c, a, data));
    }
  }

  lemma {:induction false} CompatibleUnpackSum(c: FloatConv, a: TypeSchema, b: TypeSchema, data: bytes)
    requires a.Sum? && Compatible(a, b)
    ensures SameRead(Unpack(c, a, data), Unpack(c, b, data))
    decreases a, 0
  {
    var i := TakeU32(data);
    if i.Ok? && i.value.value < |a.variants| {
      CompatibleUnpack(c, a.variants[i.value.value].shape, b.variants[i.value.value].shape, i.value.rest);
    }
  }

  lemma SameReadReflexive(x: Result<Parsed<Value>>)
    ensures SameRead(x, x)
  {
    if x.Ok? { HitchRoundTrip.SameValueReflexive(x.value.value); }
  }

  lemma SameItemsCons(x: Value, y: Value, xs: seq<Value>, ys: seq<Value>)
    requires SameValue(x, y) && SameItems(xs, ys)
    ensures SameItems([x] + xs, [y] + ys)
  {
  }

  lemma {:induction false} CompatibleUnpackItems(c: FloatConv, a: TypeSchema, b: TypeSchema, count: nat, data: bytes)
    requires Compatible(a, b)
    ensures SameReads(SameItems, UnpackItems(c, a, count, data), UnpackItems(c, b, count, data))
    decreases a, count + 1
  {
    if count > 0 {
      CompatibleUnpack(c, a, b, data);
      var x, y := Unpack(c, a, data), Unpack(c, b, data);
      if x.Ok? {
        var rest := x.value.rest;
        CompatibleUnpackItems(c, a, b, count - 1, rest);
        var xs, ys := UnpackItems(c, a, count - 1, rest), UnpackItems(c, b, count - 1, rest);
        if xs.Ok? { SameItemsCons(x.value.value, y.value.value, xs.value.value, ys.value.value); }
      }
    }
  }

  lemma {:induction false} CompatibleUnpackFields(c: FloatConv, fs: seq<SchemaField>, gs: seq<SchemaField>, data: bytes)
    requires CompatibleLists(fs, gs)
    ensures SameReads(SameFields, UnpackFields(c, fs, data), UnpackFields(c, gs, data))
    decreases fs
  {
    if fs != [] {
      assert fs[0] in fs && fs[0].shape < fs[0];
      CompatibleUnpack(c, fs[0].shape, gs[0].shape, data);
      var x, y := UnpackField(c, fs[0], data), UnpackField(c, gs[0], data);
      if x.Ok? {
        var rest := x.value.rest;
        CompatibleUnpackFields(c, fs[1..], gs[1..], rest);
        var xs, ys := UnpackFields(c, fs[1..], rest), UnpackFields(c, gs[1..], rest);
        if xs.Ok? {
          assert SameFields([x.value.value] + xs.value.value, [y.value.value] + ys.value.value);
        }
      }
    }
  }

  // ---- Type names in values

  /** Packing looks past the type names of a value: the same bytes, or the same refusal. */
  lemma {:induction false} PackSameValue(c: FloatConv, s: TypeSchema, v: Value, w: Value)
    requires SameValue(v, w)
    ensures Pack(c, v, s) == Pack(c, w, s)
    decreases s, 0
  {
    if s.Seq? {
      if v.Seq? { PackSameItems(c, s.elem, v.items, w.items); }
    } else if s.Product? {
      if v.Product? && |s.fields| == |v.fields| { PackSameFields(c, s.fields, v.fields, w.fields); }
    } else if s.Sum? {
      if v.Sum? {
        var i := Position(s.variants, v.variant);
        if i < |s.variants| { PackSameValue(c, s.variants[i].shape, v.payload, w.payload); }
      }
    } else {
      PackSameLeaf(c, s, v, w);
    }
  }

  lemma PackSameLeaf(c: FloatConv, s: TypeSchema, v: Value, w: Value)
    requires SameValue(v, w) && !s.Seq? && !s.Product? && !s.Sum?
    ensures Pack(c, v, s) == Pack(c, w, s)
  {
  }

  lemma {:induction false} PackSameItems(c: FloatConv, elem: TypeSchema, xs: seq<Value>, ys: seq<Value>)
    requires SameItems(xs, ys)
    ensures PackItems(c, xs, elem) == PackItems(c, ys, elem)
    decreases elem, |xs| + 1
  {
    if xs != [] {
      PackSameValue(c, elem, xs[0], ys[0]);
      PackSameItems(c, elem, xs[1..], ys[1..]);
    }
  }

  lemma {:induction false} PackSameFields(
      c: FloatConv, fields: seq<SchemaField>, xs: seq<ValueField>, ys: seq<ValueField>)
    requires |fields| == |xs| && SameFields(xs, ys)
    ensures PackFields(c, xs, fields) == PackFields(c, ys, fields)
    decreases fields
  {
    if fields != [] {
      assert fields[0] in fields && fields[0].shape < fields[0];
      PackSameValue(c, fields[0].shape, xs[0].value, ys[0].value);
      PackSameFields(c, fields[1..], xs[1..], ys[1..]);
    }
  }

  /** What reading `b` against `input` gives, when `b` packs `v`: that value, with the names of the
      shape it is read against. */
  ghost predicate Delivers(c: FloatConv, input: TypeSchema, v: Value, b: bytes) {
    && Unhitch(c, b, input) == Ok(HitchRoundTrip.Restore(c, v, input))
    && (HitchRoundTrip.NoF32(input) ==> SameValue(v, HitchRoundTrip.Restore(c, v, input)))
  }

  lemma PackDelivers(c: FloatConv, input: TypeSchema, v: Value, b: bytes)
    requires Pack(c, v, input) == Ok(b)
    ensures Delivers(c, input, v, b)
  {
    HitchRoundTrip.UnhitchOfHitch(c, v, input);
    if HitchRoundTrip.NoF32(input) { HitchRoundTrip.RestoreIsSameValue(c, v, input); }
  }

  /** The guarantee behind `~>`: a stage's output packed against its own shape is read by a
      compatible shape as the value that went in, and both accept exactly the same values. Even
      with narrowed floats the two shapes read the same value up to type names. */
  lemma CompatibleStages(c: FloatConv, output: TypeSchema, input: TypeSchema, v: Value)
    requires Compatible(output, input)
    ensures Accepts(output, v) <==> Accepts(input, v)
    ensures Pack(c, v, output) == Pack(c, v, input)
    ensures Pack(c, v, output).Ok? ==>
              var b := Pack(c, v, output).value;
              && Delivers(c, output, v, b) && Delivers(c, input, v, b)
              && SameValue(Unhitch(c, b, output).value, Unhitch(c, b, input).value)
  {
    CompatibleAccepts(output, input, v);
    CompatiblePack(c, output, input, v);
    if Pack(c, v, output).Ok? {
      var b := Pack(c, v, output).value;
      PackDelivers(c, output, v, b);
      PackDelivers(c, input, v, b);
      CompatibleUnpack(c, output, input, b);
    }
  }
}
