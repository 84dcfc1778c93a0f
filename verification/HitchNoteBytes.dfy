/** The manifest note in plain numbers, and what each way of failing to decode one means
    (hitch/src/lib.rs). */
module HitchNoteBytes {
  import opened Words
  import opened Utf8
  import opened HitchSchema
  import opened HitchPacked
  import opened HitchBytes
  import opened HitchErrors
  import opened HitchManifest
  import HitchRoundTrip

  // ---- The bytes of a note

  lemma PutIsFour(n: nat)
    requires n < 0x1_0000_0000
    ensures PutU32(n) == Four(n)
  {
    LeFour(n);
  }

  /** Text behind its length. */
  function TextBytes(s: Text): (b: bytes)
    requires |s| < 0x1_0000_0000
  {
    Four(|s|) + s
  }

  lemma StrBytes(s: Text)
    requires |s| < 0x1_0000_0000
    ensures PutStr(s) == TextBytes(s)
  {
    PutIsFour(|s|);
  }

  /** Every leaf is its tag. */
  lemma LeafBytes()
    ensures PutSchema(ConstSchema.Bool) == [0]
    ensures PutSchema(ConstSchema.I8) == [1] && PutSchema(ConstSchema.I16) == [2]
    ensures PutSchema(ConstSchema.I32) == [3] && PutSchema(ConstSchema.I64) == [4]
    ensures PutSchema(ConstSchema.U8) == [5] && PutSchema(ConstSchema.U16) == [6]
    ensures PutSchema(ConstSchema.U32) == [7] && PutSchema(ConstSchema.U64) == [8]
    ensures PutSchema(ConstSchema.F32) == [9] && PutSchema(ConstSchema.F64) == [10]
    ensures PutSchema(ConstSchema.Str) == [11] && PutSchema(ConstSchema.Bytes) == [12]
  {
  }

  /** A field is its name, behind a mark that it has one, and its shape. */
  function FieldBytes(f: ConstField): (b: bytes)
    requires f.name.Some? ==> |f.name.value| < 0x1_0000_0000
  {
    (if f.name.Some? then [1] + TextBytes(f.name.value) else [0]) + PutSchema(f.shape)
  }

  ghost predicate FieldBytesAre(fields: seq<ConstField>, parts: seq<bytes>) {
    && |parts| == |fields|
    && forall i | 0 <= i < |fields| ::
         (fields[i].name.Some? ==> |fields[i].name.value| < 0x1_0000_0000) && parts[i] == FieldBytes(fields[i])
  }

  lemma {:induction false} FieldsBytes(fields: seq<ConstField>, parts: seq<bytes>)
    requires FieldBytesAre(fields, parts)
    ensures PutFields(fields) == Concat(parts)
    decreases |fields|
  {
    if fields != [] {
      assert parts[0] == FieldBytes(fields[0]);
      if fields[0].name.Some? { StrBytes(fields[0].name.value); }
      FieldsBytes(fields[1..], parts[1..]);
    }
  }

  /** A variant is its name and its shape. */
  ghost predicate VariantBytesAre(variants: seq<ConstVariant>, parts: seq<bytes>) {
    && |parts| == |variants|
    && forall i | 0 <= i < |variants| ::
         |variants[i].name| < 0x1_0000_0000 && parts[i] == TextBytes(variants[i].name) + PutSchema(variants[i].shape)
  }

  lemma {:induction false} VariantsBytes(variants: seq<ConstVariant>, parts: seq<bytes>)
    requires VariantBytesAre(variants, parts)
    ensures PutVariants(variants) == Concat(parts)
    decreases |variants|
  {
    if variants != [] {
      StrBytes(variants[0].name);
      assert parts[0] == PutVariant(variants[0]);
      VariantsBytes(variants[1..], parts[1..]);
    }
  }

  /** A sequence is 13 and its element. */
  lemma SeqBytes(elem: ConstSchema)
    ensures PutSchema(ConstSchema.Seq(elem)) == [13] + PutSchema(elem)
  {
  }

  /** A product is 14, its name, its count and its fields. */
  lemma ProductBytes(name: Text, fields: seq<ConstField>, parts: seq<bytes>)
    requires |name| < 0x1_0000_0000 && |fields| < 0x1_0000_0000 && FieldBytesAre(fields, parts)
    ensures PutSchema(ConstSchema.Product(name, fields)) ==
            [14] + (TextBytes(name) + (Four(|fields|) + Concat(parts)))
  {
    StrBytes(name);
    PutIsFour(|fields|);
    FieldsBytes(fields, parts);
    assert PutSchema(ConstSchema.Product(name, fields)) == [14] + PutProduct(name, fields);
  }

  /** A sum is 15, its name, its count and its variants. */
  lemma SumBytes(name: Text, variants: seq<ConstVariant>, parts: seq<bytes>)
    requires |name| < 0x1_0000_0000 && |variants| < 0x1_0000_0000 && VariantBytesAre(variants, parts)
    ensures PutSchema(ConstSchema.Sum(name, variants)) ==
            [15] + (TextBytes(name) + (Four(|variants|) + Concat(parts)))
  {
    StrBytes(name);
    PutIsFour(|variants|);
    VariantsBytes(variants, parts);
    assert PutSchema(ConstSchema.Sum(name, variants)) == [15] + PutSum(name, variants);
  }

  /** A slot is its name, its kind and its rights. */
  ghost predicate SlotBytesAre(needs: seq<Slot>, parts: seq<bytes>) {
    && |parts| == |needs|
    && forall i | 0 <= i < |needs| ::
         && |needs[i].name| < 0x1_0000_0000
         && parts[i] == TextBytes(needs[i].name) + ([needs[i].kind] + Four(needs[i].rights))
  }

  lemma {:induction false} SlotsBytes(needs: seq<Slot>, parts: seq<bytes>)
    requires SlotBytesAre(needs, parts)
    ensures PutSlots(needs) == Concat(parts)
    decreases |needs|
  {
    if needs != [] {
      StrBytes(needs[0].name);
      PutIsFour(needs[0].rights);
      assert parts[0] == PutSlot(needs[0]);
      SlotsBytes(needs[1..], parts[1..]);
    }
  }

  /** A shape that may be missing, behind a mark that it is there. */
  function OptionBytes(s: Option<ConstSchema>): (b: bytes) {
    if s.Some? then [1] + PutSchema(s.value) else [0]
  }

  /** A note is the length of what follows; the version, 2; the input, the output, the count of the
      slots and the slots; and zeros to 1024 bytes. */
  lemma NoteBytes(m: ConstManifest, parts: seq<bytes>)
    requires Fits(m) && SlotBytesAre(m.needs, parts)
    ensures |m.needs| < 0x1_0000_0000
    ensures var payload := [2] + (OptionBytes(m.input) + (OptionBytes(m.output) + (Four(|m.needs|) + Concat(parts))));
            && 4 + |payload| <= 1024
            && Note(m) == Four(|payload|) + payload + Repeat(0, 1024 - 4 - |payload|)
  {
    SlotsBytes(m.needs, parts);
    assert |PutSlots(m.needs)| >= 9 * |m.needs|;
    PutIsFour(|m.needs|);
    PutIsFour(|Payload(m)|);
  }

  // ---- Failing to decode

  lemma ReadTagSettled(b: bytes, more: bytes)
    ensures Settled(ReadTag(b), ReadTag(b + more), more)
  {
    TakeSettled(b, 1, more);
  }

  lemma ReadStrSettled(b: bytes, more: bytes)
    ensures Settled(ReadStr(b), ReadStr(b + more), more)
  {
    TakeBlobSettled(b, more);
  }

  lemma ReadOptStrSettled(b: bytes, more: bytes)
    ensures Settled(ReadOptStr(b), ReadOptStr(b + more), more)
  {
    ReadTagSettled(b, more);
    if ReadTag(b).Ok? && ReadTag(b).value.value == 1 { ReadStrSettled(ReadTag(b).value.rest, more); }
  }

  lemma {:induction false} ReadSchemaSettled(b: bytes, more: bytes)
    ensures Settled(ReadSchema(b), ReadSchema(b + more), more)
    decreases |b|, 0
  {
    ReadTagSettled(b, more);
    if ReadTag(b).Ok? {
      var tag := ReadTag(b).value;
      if tag.value == 13 {
        ReadSchemaSettled(tag.rest, more);
      } else if tag.value == 14 {
        ReadProductSettled(tag.rest, more);
      } else if tag.value == 15 {
        ReadSumSettled(tag.rest, more);
      }
    }
  }

  lemma {:induction false} ReadProductSettled(b: bytes, more: bytes)
    ensures Settled(ReadProduct(b), ReadProduct(b + more), more)
    decreases |b|, 2
  {
    ReadStrSettled(b, more);
    if ReadStr(b).Ok? {
      var rest := ReadStr(b).value.rest;
      TakeU32Settled(rest, more);
      if TakeU32(rest).Ok? { ReadFieldsSettled(TakeU32(rest).value.value, TakeU32(rest).value.rest, more); }
    }
  }

  lemma {:induction false} ReadSumSettled(b: bytes, more: bytes)
    ensures Settled(ReadSum(b), ReadSum(b + more), more)
    decreases |b|, 2
  {
    ReadStrSettled(b, more);
    if ReadStr(b).Ok? {
      var rest := ReadStr(b).value.rest;
      TakeU32Settled(rest, more);
      if TakeU32(rest).Ok? { ReadVariantsSettled(TakeU32(rest).value.value, TakeU32(rest).value.rest, more); }
    }
  }

  lemma {:induction false} ReadFieldsSettled(count: nat, b: bytes, more: bytes)
    ensures Settled(ReadFields(count, b), ReadFields(count, b + more), more)
    decreases |b|, 1
  {
    if count > 0 {
      ReadFieldSettled(b, more);
      if ReadField(b).Ok? { ReadFieldsSettled(count - 1, ReadField(b).value.rest, more); }
    }
  }

  lemma {:induction false} ReadFieldSettled(b: bytes, more: bytes)
    ensures Settled(ReadField(b), ReadField(b + more), more)
    decreases |b|, 0
  {
    ReadOptStrSettled(b, more);
    if ReadOptStr(b).Ok? { ReadSchemaSettled(ReadOptStr(b).value.rest, more); }
  }

  lemma {:induction false} ReadVariantsSettled(count: nat, b: bytes, more: bytes)
    ensures Settled(ReadVariants(count, b), ReadVariants(count, b + more), more)
    decreases |b|, 1
  {
    if count > 0 {
      ReadVariantSettled(b, more);
      if ReadVariant(b).Ok? { ReadVariantsSettled(count - 1, ReadVariant(b).value.rest, more); }
    }
  }

  lemma {:induction false} ReadVariantSettled(b: bytes, more: bytes)
    ensures Settled(ReadVariant(b), ReadVariant(b + more), more)
    decreases |b|, 0
  {
    ReadStrSettled(b, more);
    if ReadStr(b).Ok? { ReadSchemaSettled(ReadStr(b).value.rest, more); }
  }

  lemma ReadOptSchemaSettled(b: bytes, more: bytes)
    ensures Settled(ReadOptSchema(b), ReadOptSchema(b + more), more)
  {
    ReadTagSettled(b, more);
    if ReadTag(b).Ok? && ReadTag(b).value.value == 1 { ReadSchemaSettled(ReadTag(b).value.rest, more); }
  }

  lemma ReadSlotSettled(b: bytes, more: bytes)
    ensures Settled(ReadSlot(b), ReadSlot(b + more), more)
  {
    ReadStrSettled(b, more);
    if ReadStr(b).Ok? {
      var rest := ReadStr(b).value.rest;
      ReadTagSettled(rest, more);
      if ReadTag(rest).Ok? { TakeU32Settled(ReadTag(rest).value.rest, more); }
    }
  }

  ghost predicate SlotsSettled(count: nat, b: bytes, more: bytes) {
    Settled(ReadSlots(count, b), ReadSlots(count, b + more), more)
  }

  lemma SlotsSettledNext(count: nat, b: bytes, more: bytes)
    requires forall rest :: SlotsSettled(count, rest, more)
    ensures SlotsSettled(count + 1, b, more)
  {
    ReadSlotSettled(b, more);
    if ReadSlot(b).Ok? { assert SlotsSettled(count, ReadSlot(b).value.rest, more); }
  }

  lemma {:induction false} ReadSlotsSettled(count: nat, more: bytes)
    ensures forall b :: SlotsSettled(count, b, more)
    decreases count
  {
    if count > 0 {
      ReadSlotsSettled(count - 1, more);
      forall b ensures SlotsSettled(count, b, more) { SlotsSettledNext(count - 1, b, more); }
    }
  }

  lemma ReadNeedsSettled(b: bytes, more: bytes)
    ensures Settled(ReadNeeds(b), ReadNeeds(b + more), more)
  {
    TakeU32Settled(b, more);
    if TakeU32(b).Ok? {
      var count := TakeU32(b).value;
      ReadSlotsSettled(count.value, more);
      assert SlotsSettled(count.value, count.rest, more);
    }
  }

  lemma ReadBodySettled(b: bytes, more: bytes)
    ensures Settled(ReadBody(b), ReadBody(b + more), more)
  {
    ReadTagSettled(b, more);
    if ReadTag(b).Ok? && ReadTag(b).value.value == MANIFEST_VERSION {
      var b1 := ReadTag(b).value.rest;
      ReadOptSchemaSettled(b1, more);
      if ReadOptSchema(b1).Ok? {
        var b2 := ReadOptSchema(b1).value.rest;
        ReadOptSchemaSettled(b2, more);
        if ReadOptSchema(b2).Ok? { ReadNeedsSettled(ReadOptSchema(b2).value.rest, more); }
      }
    }
  }

  /** Only a note that ends too soon is decoded otherwise when more follows. */
  lemma DecodeSettled(b: bytes, more: bytes)
    ensures DecodeManifest(b) == Err(UnexpectedEnd) || DecodeManifest(b + more) == DecodeManifest(b)
  {
    TakeU32Settled(b, more);
    if TakeU32(b).Ok? { ReadBodySettled(TakeU32(b).value.rest, more); }
  }

  /** What is refused as no note at all: an unknown version, mark or tag, and a length that is not
      that of what it heads. */
  lemma Refusals(tag: u8, b: bytes)
    ensures tag != 2 ==> ReadBody([tag] + b) == Err(SchemaMismatch)
    ensures tag > 15 ==> ReadSchema([tag] + b) == Err(SchemaMismatch)
    ensures tag > 1 ==> ReadOptSchema([tag] + b) == Err(SchemaMismatch) && ReadOptStr([tag] + b) == Err(SchemaMismatch)
    ensures TakeU32(b).Ok? && ReadBody(TakeU32(b).value.rest).Ok? ==>
              var len, left := LeNat(b[..4]), |ReadBody(b[4..]).value.rest|;
              DecodeManifest(b) ==
              if len == |b| - 4 - left then Ok(ReadBody(b[4..]).value.value) else Err(SchemaMismatch)
  {
    assert ReadTag([tag] + b) == Ok(Parsed(tag, b)) by {
      assert ([tag] + b)[..1] == [tag] && ([tag] + b)[1..] == b;
    }
  }

  /** Text that is not UTF-8 is refused, and text that is cut off is not there yet. */
  lemma TextRefusals(s: bytes, b: bytes)
    requires |s| < 0x1_0000_0000
    ensures ReadStr(Four(|s|) + s + b) == if Valid(s) then Ok(Parsed(s, b)) else Err(SchemaMismatch)
    ensures forall n | 0 <= n < 4 + |s| :: ReadStr((Four(|s|) + s)[..n]) == Err(UnexpectedEnd)
  {
    LeFour(|s|);
    HitchRoundTrip.TakeBlobOfPacked(s, b);
    forall n | 0 <= n < 4 + |s|
      ensures ReadStr((Four(|s|) + s)[..n]) == Err(UnexpectedEnd)
    {
      CutBlob(s, n);
    }
  }

  lemma CutBlob(s: bytes, n: nat)
    requires |s| < 0x1_0000_0000 && n < 4 + |s|
    ensures TakeBlob((Four(|s|) + s)[..n]) == Err(UnexpectedEnd)
  {
    if n >= 4 {
      var cut := (Four(|s|) + s)[..n];
      assert cut == Four(|s|) + s[..n - 4];
      LeFour(|s|);
      HitchRoundTrip.TakeU32OfLe(|s|, s[..n - 4]);
    }
  }

  // ---- One note in full

  const NAME_A: Text := [0x61]

  /** A stage that takes a byte, gives text, and needs one slot named `a`. */
  const ONE := ConstManifest(
    Some(ConstSchema.Product([], [ConstField(None, ConstSchema.U8)])), Some(ConstSchema.Str), [Slot(NAME_A, 3, 0x102)])

  const ONE_PAYLOAD: bytes := [
    2,
    1, 14, 0, 0, 0, 0, 1, 0, 0, 0, 0, 5,
    1, 11,
    1, 0, 0, 0, 1, 0, 0, 0, 0x61, 3, 2, 1, 0, 0]

  lemma ConcatOne(part: bytes)
    ensures Concat([part]) == part
  {
    assert [part][1..] == [];
  }

  lemma OneInput(fields: seq<ConstField>, part: bytes)
    requires fields == [ConstField(None, ConstSchema.U8)] && part == [0, 5]
    ensures PutSchema(ConstSchema.Product([], fields)) == [14, 0, 0, 0, 0, 1, 0, 0, 0, 0, 5]
  {
    assert FieldBytes(fields[0]) == part by { LeafBytes(); }
    ProductBytes([], fields, [part]);
    ConcatOne(part);
  }

  lemma SlotBytes(part: bytes)
    requires part == [1, 0, 0, 0, 0x61, 3, 2, 1, 0, 0]
    ensures TextBytes(NAME_A) + ([3] + Four(0x102)) == part
  {
  }

  lemma NeedsOf(needs: seq<Slot>, part: bytes)
    requires |needs| == 1 && SlotBytesAre(needs, [part])
    ensures PutNeeds(needs) == [1, 0, 0, 0] + part
  {
    SlotsBytes(needs, [part]);
    ConcatOne(part);
    PutIsFour(1);
  }

  lemma OneSlot(needs: seq<Slot>, part: bytes)
    requires needs == [Slot(NAME_A, 3, 0x102)] && part == [1, 0, 0, 0, 0x61, 3, 2, 1, 0, 0]
    ensures PutNeeds(needs) == [1, 0, 0, 0] + part
  {
    SlotBytes(part);
    NeedsOf(needs, part);
  }

  lemma PayloadOf(m: ConstManifest, input: bytes, output: bytes, needs: bytes)
    requires m.input.Some? && m.output.Some? && PutSchema(m.input.value) == input
    requires PutSchema(m.output.value) == output && PutNeeds(m.needs) == needs
    ensures Payload(m) == [2] + (([1] + input) + (([1] + output) + needs))
  {
  }

  lemma NoteOf(m: ConstManifest, payload: bytes)
    requires Payload(m) == payload && |payload| < 256
    ensures Fits(m) && Note(m) == [|payload|, 0, 0, 0] + payload + Repeat(0, 1020 - |payload|)
  {
    PutIsFour(|payload|);
  }

  lemma OnePayload(input: bytes, output: bytes, part: bytes)
    requires input == [14, 0, 0, 0, 0, 1, 0, 0, 0, 0, 5] && output == [11]
    requires part == [1, 0, 0, 0, 0x61, 3, 2, 1, 0, 0]
    ensures [2] + (([1] + input) + (([1] + output) + ([1, 0, 0, 0] + part))) == ONE_PAYLOAD
  {
  }

  lemma StrTag()
    ensures PutSchema(ConstSchema.Str) == [11]
  {
  }

  /** Its note. */
  lemma OneNote()
    ensures Fits(ONE) && Note(ONE) == [29, 0, 0, 0] + ONE_PAYLOAD + Repeat(0, 991)
  {
    var input: bytes, output: bytes := [14, 0, 0, 0, 0, 1, 0, 0, 0, 0, 5], [11];
    var part: bytes := [1, 0, 0, 0, 0x61, 3, 2, 1, 0, 0];
    OneManifest(ONE, input, output, part);
    OnePayload(input, output, part);
    NoteOf(ONE, ONE_PAYLOAD);
  }

  lemma OneManifest(m: ConstManifest, input: bytes, output: bytes, part: bytes)
    requires m == ONE && input == [14, 0, 0, 0, 0, 1, 0, 0, 0, 0, 5] && output == [11]
    requires part == [1, 0, 0, 0, 0x61, 3, 2, 1, 0, 0]
    ensures Payload(m) == [2] + (([1] + input) + (([1] + output) + ([1, 0, 0, 0] + part)))
  {
    OneInput([ConstField(None, ConstSchema.U8)], [0, 5]);
    OneSlot(m.needs, part);
    StrTag();
    PayloadOf(m, input, output, [1, 0, 0, 0] + part);
  }
}
