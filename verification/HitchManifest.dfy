/** Interface manifests: the const encoder that fills a fixed note and the decoder that
    reads one back (hitch/src/lib.rs). */
module HitchManifest {
  import opened Words
  import opened Utf8
  import opened HitchSchema
  import opened HitchPacked

  const MANIFEST_BYTES: nat := 1024
  const MANIFEST_VERSION: u8 := 2

  /** The const-constructible twin of `TypeSchema`. */
  datatype ConstSchema =
    | Bool | I8 | I16 | I32 | I64 | U8 | U16 | U32 | U64 | F32 | F64 | Str | Bytes
    | Seq(elem: ConstSchema)
    | Product(typeName: Text, fields: seq<ConstField>)
    | Sum(typeName: Text, variants: seq<ConstVariant>)

  datatype ConstField = ConstField(name: Option<Text>, shape: ConstSchema)

  datatype ConstVariant = ConstVariant(name: Text, shape: ConstSchema)

  datatype Slot = Slot(name: Text, kind: u8, rights: u32)

  datatype ConstManifest = ConstManifest(input: Option<ConstSchema>, output: Option<ConstSchema>, needs: seq<Slot>)

  datatype Manifest = Manifest(input: Option<TypeSchema>, output: Option<TypeSchema>, needs: seq<Slot>)

  // ---- Projection to the runtime form

  function ToTypeSchema(s: ConstSchema): (t: TypeSchema) {
    match s
    case Bool => TypeSchema.Bool
    case I8 => TypeSchema.I8
    case I16 => TypeSchema.I16
    case I32 => TypeSchema.I32
    case I64 => TypeSchema.I64
    case U8 => TypeSchema.U8
    case U16 => TypeSchema.U16
    case U32 => TypeSchema.U32
    case U64 => TypeSchema.U64
    case F32 => TypeSchema.F32
    case F64 => TypeSchema.F64
    case Str => TypeSchema.Str
    case Bytes => TypeSchema.Bytes
    case Seq(elem) => TypeSchema.Seq(ToTypeSchema(elem))
    case Product(typeName, fields) => TypeSchema.Product(typeName, ToFields(fields))
    case Sum(typeName, variants) => TypeSchema.Sum(typeName, ToVariants(variants))
  }

  function ToFields(fields: seq<ConstField>): (r: seq<SchemaField>)
    ensures |r| == |fields|
  {
    if fields == [] then [] else [ToField(fields[0])] + ToFields(fields[1..])
  }

  function ToField(f: ConstField): (r: SchemaField) {
    match f case ConstField(name, shape) => SchemaField(name, ToTypeSchema(shape))
  }

  function ToVariants(variants: seq<ConstVariant>): (r: seq<Variant>)
    ensures |r| == |variants|
  {
    if variants == [] then [] else [ToVariant(variants[0])] + ToVariants(variants[1..])
  }

  function ToVariant(v: ConstVariant): (r: Variant) {
    match v case ConstVariant(name, shape) => Variant(name, ToTypeSchema(shape))
  }

  function ToManifest(m: ConstManifest): (r: Manifest) {
    Manifest(ToOption(m.input), ToOption(m.output), m.needs)
  }

  function ToOption(s: Option<ConstSchema>): (r: Option<TypeSchema>) {
    match s case Some(shape) => Some(ToTypeSchema(shape)) case None => None
  }

  // ---- The encoding, as a byte sequence

  /** A length cast to `u32`: its low four bytes. */
  function PutU32(n: nat): (b: bytes) { LeBytes(n, 4) }

  function PutStr(s: Text): (b: bytes) { PutU32(|s|) + s }

  function PutOptStr(s: Option<Text>): (b: bytes) {
    match s case Some(text) => [1] + PutStr(text) case None => [0]
  }

  function Tag(s: ConstSchema): (t: u8) {
    match s
    case Bool => 0 case I8 => 1 case I16 => 2 case I32 => 3 case I64 => 4
    case U8 => 5 case U16 => 6 case U32 => 7 case U64 => 8
    case F32 => 9 case F64 => 10 case Str => 11 case Bytes => 12
    case Seq(_) => 13 case Product(_, _) => 14 case Sum(_, _) => 15
  }

  function PutSchema(s: ConstSchema): (b: bytes)
    ensures |b| > 0
  {
    match s
    case Seq(elem) => [13] + PutSchema(elem)
    case Product(typeName, fields) => [14] + PutProduct(typeName, fields)
    case Sum(typeName, variants) => [15] + PutSum(typeName, variants)
    case _ => [Tag(s)]
  }

  function PutProduct(typeName: Text, fields: seq<ConstField>): (b: bytes)
    decreases fields, 1
  {
    PutStr(typeName) + (PutU32(|fields|) + PutFields(fields))
  }

  function PutSum(typeName: Text, variants: seq<ConstVariant>): (b: bytes)
    decreases variants, 1
  {
    PutStr(typeName) + (PutU32(|variants|) + PutVariants(variants))
  }

  function PutFields(fields: seq<ConstField>): (b: bytes)
    ensures |b| >= 2 * |fields|
    decreases fields, 0
  {
    if fields == [] then [] else PutField(fields[0]) + PutFields(fields[1..])
  }

  function PutField(f: ConstField): (b: bytes)
    ensures |b| >= 2
  {
    match f case ConstField(name, shape) => PutOptStr(name) + PutSchema(shape)
  }

  function PutVariants(variants: seq<ConstVariant>): (b: bytes)
    ensures |b| >= 5 * |variants|
    decreases variants, 0
  {
    if variants == [] then [] else PutVariant(variants[0]) + PutVariants(variants[1..])
  }

  function PutVariant(v: ConstVariant): (b: bytes)
    ensures |b| >= 5
  {
    match v case ConstVariant(name, shape) => PutStr(name) + PutSchema(shape)
  }

  function PutOptSchema(s: Option<ConstSchema>): (b: bytes) {
    match s case Some(shape) => [1] + PutSchema(shape) case None => [0]
  }

  function PutSlots(needs: seq<Slot>): (b: bytes)
    ensures |b| >= 9 * |needs|
  {
    if needs == [] then []
    else PutSlot(needs[0]) + PutSlots(needs[1..])
  }

  function PutSlot(slot: Slot): (b: bytes)
    ensures |b| >= 9
  {
    PutStr(slot.name) + ([slot.kind] + PutU32(slot.rights))
  }

  function PutNeeds(needs: seq<Slot>): (b: bytes) { PutU32(|needs|) + PutSlots(needs) }

  /** Everything after the length prefix. */
  function Payload(m: ConstManifest): (b: bytes) {
    [MANIFEST_VERSION] + (PutOptSchema(m.input) + (PutOptSchema(m.output) + PutNeeds(m.needs)))
  }

  /** The payload behind its length prefix. */
  function Framed(m: ConstManifest): (b: bytes) { PutU32(|Payload(m)|) + Payload(m) }

  /** Does the manifest fit the note? If not, the const encoder does not compile. */
  predicate Fits(m: ConstManifest) { |Framed(m)| <= MANIFEST_BYTES }

  /** The length prefix, the payload, and zero padding. */
  function Note(m: ConstManifest): (b: bytes)
    requires Fits(m)
    ensures |b| == MANIFEST_BYTES
  {
    Framed(m) + Repeat(0, MANIFEST_BYTES - |Framed(m)|)
  }

  // ---- Decoding

  function ReadStr(b: bytes): (r: Result<Parsed<Text>>)
    ensures r.Ok? ==> |r.value.rest| + 4 <= |b|
  {
    var p :- TakeBlob(b);
    if Valid(p.value) then Ok(Parsed(p.value, p.rest)) else Err(SchemaMismatch)
  }

  function ReadTag(b: bytes): (r: Result<Parsed<u8>>)
    ensures r.Ok? ==> |r.value.rest| + 1 == |b|
  {
    var p :- TakeBytes(b, 1);
    Ok(Parsed(p.value[0], p.rest))
  }

  function ReadOptStr(b: bytes): (r: Result<Parsed<Option<Text>>>)
    ensures r.Ok? ==> |r.value.rest| + 1 <= |b|
  {
    var tag :- ReadTag(b);
    if tag.value == 0 then Ok(Parsed(None, tag.rest))
    else if tag.value == 1 then
      var p :- ReadStr(tag.rest);
      Ok(Parsed(Some(p.value), p.rest))
    else Err(SchemaMismatch)
  }

  /** The leaf shape of a tag below 13. */
  function Leaf(tag: u8): (t: TypeSchema)
    requires tag < 13
  {
    match tag
    case 0 => TypeSchema.Bool
    case 1 => TypeSchema.I8
    case 2 => TypeSchema.I16
    case 3 => TypeSchema.I32
    case 4 => TypeSchema.I64
    case 5 => TypeSchema.U8
    case 6 => TypeSchema.U16
    case 7 => TypeSchema.U32
    case 8 => TypeSchema.U64
    case 9 => TypeSchema.F32
    case 10 => TypeSchema.F64
    case 11 => TypeSchema.Str
    case _ => TypeSchema.Bytes
  }

  /** A successful read takes at least one byte, whatever the input. */
  function ReadSchema(b: bytes): (r: Result<Parsed<TypeSchema>>)
    ensures r.Ok? ==> |r.value.rest| < |b|
    decreases |b|, 0
  {
    var tag :- ReadTag(b);
    if tag.value < 13 then Ok(Parsed(Leaf(tag.value), tag.rest))
    else if tag.value == 13 then
      var p :- ReadSchema(tag.rest);
      Ok(Parsed(TypeSchema.Seq(p.value), p.rest))
    else if tag.value == 14 then ReadProduct(tag.rest)
    else if tag.value == 15 then ReadSum(tag.rest)
    else Err(SchemaMismatch)
  }

  function ReadProduct(b: bytes): (r: Result<Parsed<TypeSchema>>)
    ensures r.Ok? ==> |r.value.rest| < |b| && r.value.value.Product?
    decreases |b|, 2
  {
    var name :- ReadStr(b);
    var count :- TakeU32(name.rest);
    var p :- ReadFields(count.value, count.rest);
    Ok(Parsed(TypeSchema.Product(name.value, p.value), p.rest))
  }

  function ReadSum(b: bytes): (r: Result<Parsed<TypeSchema>>)
    ensures r.Ok? ==> |r.value.rest| < |b| && r.value.value.Sum?
    decreases |b|, 2
  {
    var name :- ReadStr(b);
    var count :- TakeU32(name.rest);
    var p :- ReadVariants(count.value, count.rest);
    Ok(Parsed(TypeSchema.Sum(name.value, p.value), p.rest))
  }

  /** A count that outruns the input is an error, never a long loop. */
  function ReadFields(count: nat, b: bytes): (r: Result<Parsed<seq<SchemaField>>>)
    ensures r.Ok? ==> |r.value.value| == count && |r.value.rest| + 2 * count <= |b|
    decreases |b|, 1
  {
    if count == 0 then Ok(Parsed([], b))
    else
      var field :- ReadField(b);
      var tail :- ReadFields(count - 1, field.rest);
      Ok(Parsed([field.value] + tail.value, tail.rest))
  }

  function ReadField(b: bytes): (r: Result<Parsed<SchemaField>>)
    ensures r.Ok? ==> |r.value.rest| + 2 <= |b|
    decreases |b|, 0
  {
    var name :- ReadOptStr(b);
    var shape :- ReadSchema(name.rest);
    Ok(Parsed(SchemaField(name.value, shape.value), shape.rest))
  }

  function ReadVariants(count: nat, b: bytes): (r: Result<Parsed<seq<Variant>>>)
    ensures r.Ok? ==> |r.value.value| == count && |r.value.rest| + 5 * count <= |b|
    decreases |b|, 1
  {
    if count == 0 then Ok(Parsed([], b))
    else
      var variant :- ReadVariant(b);
      var tail :- ReadVariants(count - 1, variant.rest);
      Ok(Parsed([variant.value] + tail.value, tail.rest))
  }

  function ReadVariant(b: bytes): (r: Result<Parsed<Variant>>)
    ensures r.Ok? ==> |r.value.rest| + 5 <= |b|
    decreases |b|, 0
  {
    var name :- ReadStr(b);
    var shape :- ReadSchema(name.rest);
    Ok(Parsed(Variant(name.value, shape.value), shape.rest))
  }

  function ReadOptSchema(b: bytes): (r: Result<Parsed<Option<TypeSchema>>>)
    ensures r.Ok? ==> |r.value.rest| < |b|
  {
    var tag :- ReadTag(b);
    if tag.value == 0 then Ok(Parsed(None, tag.rest))
    else if tag.value == 1 then
      var p :- ReadSchema(tag.rest);
      Ok(Parsed(Some(p.value), p.rest))
    else Err(SchemaMismatch)
  }

  function ReadSlot(b: bytes): (r: Result<Parsed<Slot>>)
    ensures r.Ok? ==> |r.value.rest| + 9 <= |b|
  {
    var name :- ReadStr(b);
    var kind :- ReadTag(name.rest);
    var rights :- TakeU32(kind.rest);
    Ok(Parsed(Slot(name.value, kind.value, rights.value), rights.rest))
  }

  function ReadSlots(count: nat, b: bytes): (r: Result<Parsed<seq<Slot>>>)
    ensures r.Ok? ==> |r.value.value| == count && |r.value.rest| + 9 * count <= |b|
    decreases count
  {
    if count == 0 then Ok(Parsed([], b))
    else
      var slot :- ReadSlot(b);
      var tail :- ReadSlots(count - 1, slot.rest);
      Ok(Parsed([slot.value] + tail.value, tail.rest))
  }

  function ReadNeeds(b: bytes): (r: Result<Parsed<seq<Slot>>>)
    ensures r.Ok? ==> |r.value.rest| < |b|
  {
    var count :- TakeU32(b);
    ReadSlots(count.value, count.rest)
  }

  /** The body after the length prefix. */
  function ReadBody(b: bytes): (r: Result<Parsed<Manifest>>)
    ensures r.Ok? ==> |r.value.rest| < |b|
  {
    var version :- ReadTag(b);
    if version.value != MANIFEST_VERSION then Err(SchemaMismatch)
    else
      var input :- ReadOptSchema(version.rest);
      var output :- ReadOptSchema(input.rest);
      var needs :- ReadNeeds(output.rest);
      Ok(Parsed(Manifest(input.value, output.value, needs.value), needs.rest))
  }

  /** The length prefix must equal what the body consumed; the subtraction never underflows. */
  function DecodeManifest(b: bytes): (r: Result<Manifest>) {
    var len :- TakeU32(b);
    var body :- ReadBody(len.rest);
    var consumed: nat := |b| - |body.rest| - 4;
    if consumed == len.value then Ok(body.value) else Err(SchemaMismatch)
  }
}
