/** The manifest codec undoes itself in both directions: every manifest that fits the note is
    read back from it, and every note that decodes carries exactly the encoding of its
    manifest (hitch/src/lib.rs). */
module HitchManifestProofs {
  import opened Words
  import opened Utf8
  import opened HitchSchema
  import opened HitchPacked
  import opened HitchRoundTrip
  import opened HitchManifest

  // ---- Reading what was put

  lemma ReadTagOfPut(tag: u8, rest: bytes)
    ensures ReadTag([tag] + rest) == Ok(Parsed(tag, rest))
  {
    TakeExactly([tag], rest);
  }

  lemma TakeU32OfPut(n: nat, rest: bytes)
    requires n < TWO_32
    ensures TakeU32(PutU32(n) + rest) == Ok(Parsed(n, rest))
  {
    TakeU32OfLe(n, rest);
  }

  lemma ReadStrOfPut(s: Text, rest: bytes)
    requires |s| < TWO_32
    ensures ReadStr(PutStr(s) + rest) == Ok(Parsed(s, rest))
  {
    TakeBlobOfPacked(s, rest);
  }

  lemma ReadOptStrOfPut(s: Option<Text>, rest: bytes)
    requires s.Some? ==> |s.value| < TWO_32
    ensures ReadOptStr(PutOptStr(s) + rest) == Ok(Parsed(s, rest))
  {
    match s
    case None => ReadTagOfPut(0, rest);
    case Some(text) =>
      ConcatAssociate([1], PutStr(text), rest);
      ReadTagOfPut(1, PutStr(text) + rest);
      ReadStrOfPut(text, rest);
  }

  lemma {:induction false} ReadSchemaOfPut(s: ConstSchema, rest: bytes)
    requires |PutSchema(s)| < TWO_32
    ensures ReadSchema(PutSchema(s) + rest) == Ok(Parsed(ToTypeSchema(s), rest))
    decreases s
  {
    if s.Seq? {
      ConcatAssociate([13], PutSchema(s.elem), rest);
      ReadTagOfPut(13, PutSchema(s.elem) + rest);
      ReadSchemaOfPut(s.elem, rest);
    } else if s.Product? {
      ConcatAssociate([14], PutProduct(s.typeName, s.fields), rest);
      ReadTagOfPut(14, PutProduct(s.typeName, s.fields) + rest);
      ReadProductOfPut(s.typeName, s.fields, rest);
    } else if s.Sum? {
      ConcatAssociate([15], PutSum(s.typeName, s.variants), rest);
      ReadTagOfPut(15, PutSum(s.typeName, s.variants) + rest);
      ReadSumOfPut(s.typeName, s.variants, rest);
    } else {
      LeafOfTag(s);
      ReadTagOfPut(Tag(s), rest);
    }
  }

  lemma LeafOfTag(s: ConstSchema)
    requires !s.Seq? && !s.Product? && !s.Sum?
    ensures PutSchema(s) == [Tag(s)] && Tag(s) < 13 && Leaf(Tag(s)) == ToTypeSchema(s)
  {
  }

  lemma {:induction false} ReadProductOfPut(typeName: Text, fields: seq<ConstField>, rest: bytes)
    requires |PutProduct(typeName, fields)| < TWO_32
    ensures ReadProduct(PutProduct(typeName, fields) + rest)
            == Ok(Parsed(TypeSchema.Product(typeName, ToFields(fields)), rest))
    decreases fields, 1
  {
    var name, count, body := PutStr(typeName), PutU32(|fields|), PutFields(fields);
    ConcatAssociate(name, count + body, rest);
    ConcatAssociate(count, body, rest);
    ReadStrOfPut(typeName, count + (body + rest));
    TakeU32OfPut(|fields|, body + rest);
    ReadFieldsOfPut(fields, rest);
  }

  lemma {:induction false} ReadSumOfPut(typeName: Text, variants: seq<ConstVariant>, rest: bytes)
    requires |PutSum(typeName, variants)| < TWO_32
    ensures ReadSum(PutSum(typeName, variants) + rest)
            == Ok(Parsed(TypeSchema.Sum(typeName, ToVariants(variants)), rest))
    decreases variants, 1
  {
    var name, count, body := PutStr(typeName), PutU32(|variants|), PutVariants(variants);
    ConcatAssociate(name, count + body, rest);
    ConcatAssociate(count, body, rest);
    ReadStrOfPut(typeName, count + (body + rest));
    TakeU32OfPut(|variants|, body + rest);
    ReadVariantsOfPut(variants, rest);
  }

  lemma {:induction false} ReadFieldsOfPut(fields: seq<ConstField>, rest: bytes)
    requires |PutFields(fields)| < TWO_32
    ensures ReadFields(|fields|, PutFields(fields) + rest) == Ok(Parsed(ToFields(fields), rest))
    decreases fields, 0
  {
    if fields == [] {
      assert [] + rest == rest;
    } else {
      ConcatAssociate(PutField(fields[0]), PutFields(fields[1..]), rest);
      ReadFieldOfPut(fields[0], PutFields(fields[1..]) + rest);
      ReadFieldsOfPut(fields[1..], rest);
    }
  }

  lemma {:induction false} ReadFieldOfPut(f: ConstField, rest: bytes)
    requires |PutField(f)| < TWO_32
    ensures ReadField(PutField(f) + rest) == Ok(Parsed(ToField(f), rest))
  {
    match f case ConstField(name, shape) =>
      ConcatAssociate(PutOptStr(name), PutSchema(shape), rest);
      ReadOptStrOfPut(name, PutSchema(shape) + rest);
      ReadSchemaOfPut(shape, rest);
  }

  lemma {:induction false} ReadVariantsOfPut(variants: seq<ConstVariant>, rest: bytes)
    requires |PutVariants(variants)| < TWO_32
    ensures ReadVariants(|variants|, PutVariants(variants) + rest) == Ok(Parsed(ToVariants(variants), rest))
    decreases variants, 0
  {
    if variants == [] {
      assert [] + rest == rest;
    } else {
      ConcatAssociate(PutVariant(variants[0]), PutVariants(variants[1..]), rest);
      ReadVariantOfPut(variants[0], PutVariants(variants[1..]) + rest);
      ReadVariantsOfPut(variants[1..], rest);
    }
  }

  lemma {:induction false} ReadVariantOfPut(v: ConstVariant, rest: bytes)
    requires |PutVariant(v)| < TWO_32
    ensures ReadVariant(PutVariant(v) + rest) == Ok(Parsed(ToVariant(v), rest))
  {
    match v case ConstVariant(name, shape) =>
      ConcatAssociate(PutStr(name), PutSchema(shape), rest);
      ReadStrOfPut(name, PutSchema(shape) + rest);
      ReadSchemaOfPut(shape, rest);
  }

  lemma ReadOptSchemaOfPut(s: Option<ConstSchema>, rest: bytes)
    requires |PutOptSchema(s)| < TWO_32
    ensures ReadOptSchema(PutOptSchema(s) + rest) == Ok(Parsed(ToOption(s), rest))
  {
    match s
    case None => ReadTagOfPut(0, rest);
    case Some(shape) =>
      ConcatAssociate([1], PutSchema(shape), rest);
      ReadTagOfPut(1, PutSchema(shape) + rest);
      ReadSchemaOfPut(shape, rest);
  }

  lemma ReadSlotsCons(count: nat, b: bytes, slot: Slot, mid: bytes, tail: seq<Slot>, rest: bytes)
    requires ReadSlot(b) == Ok(Parsed(slot, mid)) && ReadSlots(count, mid) == Ok(Parsed(tail, rest))
    ensures ReadSlots(count + 1, b) == Ok(Parsed([slot] + tail, rest))
  {
  }

  lemma {:induction false} ReadSlotsOfPut(needs: seq<Slot>, rest: bytes)
    requires |PutSlots(needs)| < TWO_32
    ensures ReadSlots(|needs|, PutSlots(needs) + rest) == Ok(Parsed(needs, rest))
  {
    if needs == [] {
      assert [] + rest == rest;
    } else {
      var b, mid := PutSlots(needs) + rest, PutSlots(needs[1..]) + rest;
      ReadSlotsOfPut(needs[1..], rest);
      assert ReadSlot(b) == Ok(Parsed(needs[0], mid)) by {
        ConcatAssociate(PutSlot(needs[0]), PutSlots(needs[1..]), rest);
        ReadSlotOfPut(needs[0], mid);
      }
      ReadSlotsCons(|needs| - 1, b, needs[0], mid, needs[1..], rest);
      assert [needs[0]] + needs[1..] == needs;
    }
  }

  lemma ReadNeedsOfPut(needs: seq<Slot>, rest: bytes)
    requires |PutNeeds(needs)| < TWO_32
    ensures ReadNeeds(PutNeeds(needs) + rest) == Ok(Parsed(needs, rest))
  {
    ConcatAssociate(PutU32(|needs|), PutSlots(needs), rest);
    TakeU32OfPut(|needs|, PutSlots(needs) + rest);
    ReadSlotsOfPut(needs, rest);
  }

  lemma ReadSlotOfPut(slot: Slot, rest: bytes)
    requires |PutSlot(slot)| < TWO_32
    ensures ReadSlot(PutSlot(slot) + rest) == Ok(Parsed(slot, rest))
  {
    var name, rights := PutStr(slot.name), PutU32(slot.rights);
    ConcatAssociate(name, [slot.kind] + rights, rest);
    ConcatAssociate([slot.kind], rights, rest);
    ReadStrOfPut(slot.name, [slot.kind] + (rights + rest));
    ReadTagOfPut(slot.kind, rights + rest);
    TakeU32OfPut(slot.rights, rest);
  }

  lemma ReadBodyOfPayload(m: ConstManifest, rest: bytes)
    requires |Payload(m)| < TWO_32
    ensures ReadBody(Payload(m) + rest) == Ok(Parsed(ToManifest(m), rest))
  {
    var input, output, needs := PutOptSchema(m.input), PutOptSchema(m.output), PutNeeds(m.needs);
    ConcatAssociate([MANIFEST_VERSION], input + (output + needs), rest);
    ConcatAssociate(input, output + needs, rest);
    ConcatAssociate(output, needs, rest);
    ReadTagOfPut(MANIFEST_VERSION, input + (output + (needs + rest)));
    ReadOptSchemaOfPut(m.input, output + (needs + rest));
    ReadOptSchemaOfPut(m.output, needs + rest);
    ReadNeedsOfPut(m.needs, rest);
  }

  lemma PayloadDecodes(b: bytes, m: ConstManifest)
    requires |Payload(m)| < TWO_32 && Framed(m) <= b
    ensures DecodeManifest(b) == Ok(ToManifest(m))
  {
    var payload, rest := Payload(m), b[|Framed(m)|..];
    FrameReads(b, payload, rest);
    ReadBodyOfPayload(m, rest);
  }

  lemma FrameReads(b: bytes, payload: bytes, rest: bytes)
    requires |payload| < TWO_32 && PutU32(|payload|) + payload <= b
    requires rest == b[|PutU32(|payload|) + payload|..]
    ensures TakeU32(b) == Ok(Parsed(|payload|, payload + rest)) && |b| == 4 + |payload| + |rest|
  {
    assert b == PutU32(|payload|) + payload + rest;
    ConcatAssociate(PutU32(|payload|), payload, rest);
    TakeU32OfPut(|payload|, payload + rest);
  }

  /** A manifest that fits is read back from its note, padding and all. */
  lemma DecodeOfEncode(m: ConstManifest)
    requires Fits(m)
    ensures DecodeManifest(Note(m)) == Ok(ToManifest(m))
  {
    PayloadDecodes(Note(m), m);
  }

  // ---- Putting what was read

  /** The const twin of a runtime shape. */
  function Embed(t: TypeSchema): (s: ConstSchema) {
    match t
    case Bool => ConstSchema.Bool
    case I8 => ConstSchema.I8
    case I16 => ConstSchema.I16
    case I32 => ConstSchema.I32
    case I64 => ConstSchema.I64
    case U8 => ConstSchema.U8
    case U16 => ConstSchema.U16
    case U32 => ConstSchema.U32
    case U64 => ConstSchema.U64
    case F32 => ConstSchema.F32
    case F64 => ConstSchema.F64
    case Str => ConstSchema.Str
    case Bytes => ConstSchema.Bytes
    case Seq(elem) => ConstSchema.Seq(Embed(elem))
    case Product(typeName, fields) => ConstSchema.Product(typeName, EmbedFields(fields))
    case Sum(typeName, variants) => ConstSchema.Sum(typeName, EmbedVariants(variants))
  }

  function EmbedFields(fields: seq<SchemaField>): (r: seq<ConstField>)
    ensures |r| == |fields|
  {
    if fields == [] then [] else [EmbedField(fields[0])] + EmbedFields(fields[1..])
  }

  function EmbedField(f: SchemaField): (r: ConstField) {
    match f case SchemaField(name, shape) => ConstField(name, Embed(shape))
  }

  function EmbedVariants(variants: seq<Variant>): (r: seq<ConstVariant>)
    ensures |r| == |variants|
  {
    if variants == [] then [] else [EmbedVariant(variants[0])] + EmbedVariants(variants[1..])
  }

  function EmbedVariant(v: Variant): (r: ConstVariant) {
    match v case Variant(name, shape) => ConstVariant(name, Embed(shape))
  }

  function EmbedOption(t: Option<TypeSchema>): (s: Option<ConstSchema>) {
    match t case Some(shape) => Some(Embed(shape)) case None => None
  }

  function EmbedManifest(m: Manifest): (r: ConstManifest) {
    ConstManifest(EmbedOption(m.input), EmbedOption(m.output), m.needs)
  }

  lemma {:induction false} ProjectOfEmbed(t: TypeSchema)
    ensures ToTypeSchema(Embed(t)) == t
  {
    if t.Seq? {
      ProjectOfEmbed(t.elem);
    } else if t.Product? {
      ProjectOfEmbedFields(t.fields);
    } else if t.Sum? {
      ProjectOfEmbedVariants(t.variants);
    } else {
      ProjectOfLeaf(t);
    }
  }

  lemma ProjectOfLeaf(t: TypeSchema)
    requires !t.Seq? && !t.Product? && !t.Sum?
    ensures ToTypeSchema(Embed(t)) == t
  {
  }

  lemma {:induction false} ProjectOfEmbedFields(fields: seq<SchemaField>)
    ensures ToFields(EmbedFields(fields)) == fields
  {
    if fields != [] {
      assert fields[0] in fields && fields[0].shape < fields[0];
      ProjectOfEmbed(fields[0].shape);
      ProjectOfEmbedFields(fields[1..]);
      assert EmbedFields(fields)[1..] == EmbedFields(fields[1..]);
    }
  }

  lemma {:induction false} ProjectOfEmbedVariants(variants: seq<Variant>)
    ensures ToVariants(EmbedVariants(variants)) == variants
  {
    if variants != [] {
      ProjectOfEmbed(variants[0].shape);
      ProjectOfEmbedVariants(variants[1..]);
      assert EmbedVariants(variants)[1..] == EmbedVariants(variants[1..]);
    }
  }

  /** Two consecutive reads put back together. */
  lemma Rejoin(b: bytes, x: bytes, mid: bytes, y: bytes, rest: bytes)
    requires b == x + mid && mid == y + rest
    ensures b == (x + y) + rest
  {
  }

  lemma PutOfReadTag(b: bytes)
    requires ReadTag(b).Ok?
    ensures b == [ReadTag(b).value.value] + ReadTag(b).value.rest
  {
  }

  lemma PutOfTakeU32(b: bytes, n: u32, rest: bytes)
    requires TakeU32(b) == Ok(Parsed(n, rest))
    ensures b == PutU32(n) + rest
  {
    LeBytesOfLeNat(b[..4]);
    assert b == b[..4] + b[4..];
  }

  lemma PutOfReadStr(b: bytes, s: Text, rest: bytes)
    requires ReadStr(b) == Ok(Parsed(s, rest))
    ensures b == PutStr(s) + rest
  {
    PutOfTakeU32(b, |s|, b[4..]);
    assert b[4..] == s + rest;
    Rejoin(b, PutU32(|s|), b[4..], s, rest);
  }

  lemma PutOfReadOptStr(b: bytes)
    requires ReadOptStr(b).Ok?
    ensures b == PutOptStr(ReadOptStr(b).value.value) + ReadOptStr(b).value.rest
  {
    var p := ReadOptStr(b).value;
    PutOfReadTag(b);
    if p.value.Some? {
      var mid := ReadTag(b).value.rest;
      PutOfReadStr(mid, p.value.value, p.rest);
      Rejoin(b, [1], mid, PutStr(p.value.value), p.rest);
    }
  }

  lemma {:induction false} PutOfReadSchema(b: bytes, t: TypeSchema, rest: bytes)
    requires ReadSchema(b) == Ok(Parsed(t, rest))
    ensures b == PutSchema(Embed(t)) + rest
    decreases |b|, 0
  {
    var tag := ReadTag(b).value;
    if tag.value == 13 {
      PutEmbeddedSeq(t.elem);
      PutOfReadSchema(tag.rest, t.elem, rest);
      Retag(b, PutSchema(Embed(t.elem)), rest);
    } else if tag.value == 14 {
      PutOfReadProduct(tag.rest, t, rest);
      PutEmbeddedProduct(t.typeName, t.fields);
      Retag(b, PutProduct(t.typeName, EmbedFields(t.fields)), rest);
    } else if tag.value == 15 {
      PutOfReadSum(tag.rest, t, rest);
      PutEmbeddedSum(t.typeName, t.variants);
      Retag(b, PutSum(t.typeName, EmbedVariants(t.variants)), rest);
    } else {
      PutOfReadLeaf(b, t, rest);
    }
  }

  lemma PutEmbeddedSeq(elem: TypeSchema)
    ensures PutSchema(Embed(TypeSchema.Seq(elem))) == [13] + PutSchema(Embed(elem))
  {
  }

  lemma PutEmbeddedProduct(typeName: Text, fields: seq<SchemaField>)
    ensures PutSchema(Embed(TypeSchema.Product(typeName, fields))) == [14] + PutProduct(typeName, EmbedFields(fields))
  {
  }

  lemma PutEmbeddedSum(typeName: Text, variants: seq<Variant>)
    ensures PutSchema(Embed(TypeSchema.Sum(typeName, variants))) == [15] + PutSum(typeName, EmbedVariants(variants))
  {
  }

  lemma PutOfReadLeaf(b: bytes, t: TypeSchema, rest: bytes)
    requires ReadTag(b).Ok? && ReadTag(b).value.value < 13
    requires t == Leaf(ReadTag(b).value.value) && rest == ReadTag(b).value.rest
    ensures b == PutSchema(Embed(t)) + rest
  {
    LeafTag(ReadTag(b).value.value);
    PutOfReadTag(b);
  }

  lemma Retag(b: bytes, body: bytes, rest: bytes)
    requires ReadTag(b).Ok? && ReadTag(b).value.rest == body + rest
    ensures b == ([ReadTag(b).value.value] + body) + rest
  {
    PutOfReadTag(b);
  }

  lemma {:induction false} PutOfReadProduct(b: bytes, t: TypeSchema, rest: bytes)
    requires ReadProduct(b) == Ok(Parsed(t, rest))
    ensures t.Product? && b == PutProduct(t.typeName, EmbedFields(t.fields)) + rest
    decreases |b|, 2
  {
    var name := ReadStr(b).value;
    var count := TakeU32(name.rest).value;
    PutOfReadFields(count.value, count.rest);
    PutOfTakeU32(name.rest, count.value, count.rest);
    PutOfReadStr(b, name.value, name.rest);
    var body := PutFields(EmbedFields(t.fields));
    Rejoin(name.rest, PutU32(count.value), count.rest, body, rest);
    Rejoin(b, PutStr(name.value), name.rest, PutU32(count.value) + body, rest);
  }

  lemma {:induction false} PutOfReadSum(b: bytes, t: TypeSchema, rest: bytes)
    requires ReadSum(b) == Ok(Parsed(t, rest))
    ensures t.Sum? && b == PutSum(t.typeName, EmbedVariants(t.variants)) + rest
    decreases |b|, 2
  {
    var name := ReadStr(b).value;
    var count := TakeU32(name.rest).value;
    PutOfReadVariants(count.value, count.rest);
    PutOfTakeU32(name.rest, count.value, count.rest);
    PutOfReadStr(b, name.value, name.rest);
    var body := PutVariants(EmbedVariants(t.variants));
    Rejoin(name.rest, PutU32(count.value), count.rest, body, rest);
    Rejoin(b, PutStr(name.value), name.rest, PutU32(count.value) + body, rest);
  }

  lemma LeafTag(tag: u8)
    requires tag < 13
    ensures PutSchema(Embed(Leaf(tag))) == [tag]
  {
  }

  lemma {:induction false} PutOfReadFields(count: nat, b: bytes)
    requires ReadFields(count, b).Ok?
    ensures b == PutFields(EmbedFields(ReadFields(count, b).value.value)) + ReadFields(count, b).value.rest
    decreases |b|, 1
  {
    if count > 0 {
      var field := ReadField(b).value;
      PutOfReadFields(count - 1, field.rest);
      PutOfReadField(b);
      var tail := ReadFields(count - 1, field.rest).value;
      var fs := [field.value] + tail.value;
      assert fs[1..] == tail.value;
      assert EmbedFields(fs)[1..] == EmbedFields(tail.value);
      Rejoin(b, PutField(EmbedField(field.value)), field.rest, PutFields(EmbedFields(tail.value)), tail.rest);
    }
  }

  lemma {:induction false} PutOfReadField(b: bytes)
    requires ReadField(b).Ok?
    ensures b == PutField(EmbedField(ReadField(b).value.value)) + ReadField(b).value.rest
    decreases |b|, 0
  {
    var field, name := ReadField(b).value, ReadOptStr(b).value;
    PutOfReadSchema(name.rest, field.value.shape, field.rest);
    PutOfReadOptStr(b);
    Rejoin(b, PutOptStr(name.value), name.rest, PutSchema(Embed(field.value.shape)), field.rest);
  }

  lemma {:induction false} PutOfReadVariants(count: nat, b: bytes)
    requires ReadVariants(count, b).Ok?
    ensures b == PutVariants(EmbedVariants(ReadVariants(count, b).value.value)) + ReadVariants(count, b).value.rest
    decreases |b|, 1
  {
    if count > 0 {
      var variant := ReadVariant(b).value;
      PutOfReadVariants(count - 1, variant.rest);
      PutOfReadVariant(b);
      var tail := ReadVariants(count - 1, variant.rest).value;
      var vs := [variant.value] + tail.value;
      assert vs[1..] == tail.value;
      assert EmbedVariants(vs)[1..] == EmbedVariants(tail.value);
      Rejoin(
        b, PutVariant(EmbedVariant(variant.value)), variant.rest, PutVariants(EmbedVariants(tail.value)), tail.rest);
    }
  }

  lemma {:induction false} PutOfReadVariant(b: bytes)
    requires ReadVariant(b).Ok?
    ensures b == PutVariant(EmbedVariant(ReadVariant(b).value.value)) + ReadVariant(b).value.rest
    decreases |b|, 0
  {
    var variant, name := ReadVariant(b).value, ReadStr(b).value;
    PutOfReadSchema(name.rest, variant.value.shape, variant.rest);
    PutOfReadStr(b, name.value, name.rest);
    Rejoin(b, PutStr(name.value), name.rest, PutSchema(Embed(variant.value.shape)), variant.rest);
  }

  lemma PutOfReadOptSchema(b: bytes)
    requires ReadOptSchema(b).Ok?
    ensures b == PutOptSchema(EmbedOption(ReadOptSchema(b).value.value)) + ReadOptSchema(b).value.rest
  {
    var p := ReadOptSchema(b).value;
    if p.value.Some? {
      PutOfReadSchema(ReadTag(b).value.rest, p.value.value, p.rest);
      Retag(b, PutSchema(Embed(p.value.value)), p.rest);
    } else {
      PutOfReadTag(b);
    }
  }

  lemma PutOfReadSlot(b: bytes, slot: Slot, rest: bytes)
    requires ReadSlot(b) == Ok(Parsed(slot, rest))
    ensures b == PutSlot(slot) + rest
  {
    var name := ReadStr(b).value;
    var kind := ReadTag(name.rest).value;
    PutOfReadStr(b, name.value, name.rest);
    PutOfReadTag(name.rest);
    PutOfTakeU32(kind.rest, slot.rights, rest);
    Rejoin(name.rest, [kind.value], kind.rest, PutU32(slot.rights), rest);
    Rejoin(b, PutStr(name.value), name.rest, [kind.value] + PutU32(slot.rights), rest);
  }

  lemma {:induction false} PutOfReadSlots(count: nat, b: bytes)
    ensures var r := ReadSlots(count, b);
            r.Ok? ==> b == PutSlots(r.value.value) + r.value.rest
    decreases count
  {
    if count == 0 {
      assert [] + b == b;
    } else if ReadSlot(b).Ok? {
      var slot := ReadSlot(b).value;
      PutOfReadSlots(count - 1, slot.rest);
      var tail := ReadSlots(count - 1, slot.rest);
      if tail.Ok? { RejoinSlots(b, slot.value, slot.rest, tail.value.value, tail.value.rest); }
    }
  }

  lemma RejoinSlots(b: bytes, slot: Slot, mid: bytes, tail: seq<Slot>, rest: bytes)
    requires ReadSlot(b) == Ok(Parsed(slot, mid)) && mid == PutSlots(tail) + rest
    ensures b == PutSlots([slot] + tail) + rest
  {
    PutOfReadSlot(b, slot, mid);
    assert ([slot] + tail)[1..] == tail;
    Rejoin(b, PutSlot(slot), mid, PutSlots(tail), rest);
  }

  lemma PutOfReadNeeds(b: bytes)
    requires ReadNeeds(b).Ok?
    ensures b == PutNeeds(ReadNeeds(b).value.value) + ReadNeeds(b).value.rest
  {
    var p, count := ReadNeeds(b).value, TakeU32(b).value;
    PutOfTakeU32(b, count.value, count.rest);
    PutOfReadSlots(count.value, count.rest);
    Rejoin(b, PutU32(count.value), count.rest, PutSlots(p.value), p.rest);
  }

  lemma PayloadOfReadBody(b: bytes)
    requires ReadBody(b).Ok?
    ensures b == Payload(EmbedManifest(ReadBody(b).value.value)) + ReadBody(b).value.rest
  {
    var p := ReadBody(b).value;
    var version := ReadTag(b).value;
    var input := ReadOptSchema(version.rest).value;
    var output := ReadOptSchema(input.rest).value;
    PutOfReadTag(b);
    PutOfReadOptSchema(version.rest);
    PutOfReadOptSchema(input.rest);
    PutOfReadNeeds(output.rest);
    var n := PutNeeds(p.value.needs);
    var o := PutOptSchema(EmbedOption(output.value)) + n;
    Rejoin(input.rest, PutOptSchema(EmbedOption(output.value)), output.rest, n, p.rest);
    var i := PutOptSchema(EmbedOption(input.value)) + o;
    Rejoin(version.rest, PutOptSchema(EmbedOption(input.value)), input.rest, o, p.rest);
    Rejoin(b, [MANIFEST_VERSION], version.rest, i, p.rest);
  }

  lemma DecodedCarriesPayload(b: bytes)
    requires DecodeManifest(b).Ok?
    ensures var m := EmbedManifest(DecodeManifest(b).value);
            |Payload(m)| < TWO_32 && Framed(m) <= b
  {
    var len := TakeU32(b).value;
    var body := ReadBody(len.rest).value;
    var payload := Payload(EmbedManifest(body.value));
    assert len.value == |b| - |body.rest| - 4 && |len.rest| == |b| - 4;
    PayloadOfReadBody(len.rest);
    assert |payload| == len.value;
    PutOfTakeU32(b, len.value, len.rest);
    Rejoin(b, PutU32(len.value), len.rest, payload, body.rest);
  }

  /** Bytes decode to a manifest exactly when they open with its length-prefixed payload: a
      note has one reading and a manifest one payload. */
  lemma DecodesIffCarriesPayload(b: bytes, m: Manifest)
    ensures DecodeManifest(b) == Ok(m) <==>
            |Payload(EmbedManifest(m))| < TWO_32 && Framed(EmbedManifest(m)) <= b
  {
    if DecodeManifest(b) == Ok(m) {
      DecodedCarriesPayload(b);
    }
    if |Payload(EmbedManifest(m))| < TWO_32 && Framed(EmbedManifest(m)) <= b {
      PayloadDecodes(b, EmbedManifest(m));
      ProjectOfEmbedManifest(m);
    }
  }

  lemma ProjectOfEmbedManifest(m: Manifest)
    ensures ToManifest(EmbedManifest(m)) == m
  {
    if m.input.Some? { ProjectOfEmbed(m.input.value); }
    if m.output.Some? { ProjectOfEmbed(m.output.value); }
  }
}
