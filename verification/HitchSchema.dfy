/** Hitch values and their shapes: structural conformance (`accepts`) and the typecheck
    behind `~>` (`compatible`), from hitch/src/lib.rs. */
module HitchSchema {
  import opened Words
  import opened Utf8

  datatype Error = SchemaMismatch | UnexpectedEnd | TrailingBytes

  datatype Result<+T> = Ok(value: T) | Err(error: Error) {
    predicate IsFailure() { Err? }

    function PropagateFailure<U>(): (r: Result<U>)
      requires Err?
    {
      Err(error)
    }

    function Extract(): (t: T)
      requires Ok?
    {
      value
    }
  }

  /** A value. Floats are their 64-bit patterns. */
  datatype Value =
    | Bool(b: bool)
    | I64(i: i64)
    | U64(u: u64)
    | F64(bits: u64)
    | Str(text: Text)
    | Bytes(data: bytes)
    | Seq(items: seq<Value>)
    | Product(typeName: Text, fields: seq<ValueField>)
    | Sum(typeName: Text, variant: Text, payload: Value)

  datatype ValueField = ValueField(name: Option<Text>, value: Value)

  datatype TypeSchema =
    | Bool | I8 | I16 | I32 | I64 | U8 | U16 | U32 | U64 | F32 | F64 | Str | Bytes
    | Seq(elem: TypeSchema)
    | Product(typeName: Text, fields: seq<SchemaField>)
    | Sum(typeName: Text, variants: seq<Variant>)
  {
    /** Bytes an unsigned shape occupies; 0 for every other shape. */
    function UintWidth(): (w: nat) {
      match this case U8 => 1 case U16 => 2 case U32 => 4 case U64 => 8 case _ => 0
    }

    /** Bytes a signed shape occupies; 0 for every other shape. */
    function IntWidth(): (w: nat) {
      match this case I8 => 1 case I16 => 2 case I32 => 4 case I64 => 8 case _ => 0
    }
  }

  datatype SchemaField = SchemaField(name: Option<Text>, shape: TypeSchema)

  datatype Variant = Variant(name: Text, shape: TypeSchema)

  /** Half of what `width` signed bytes can hold. */
  function Half(width: nat): (h: int) { Pow256(width) / 2 }

  predicate UintFits(n: u64, width: nat) { width >= 8 || n < Pow256(width) }

  predicate IntFits(n: i64, width: nat) { width >= 8 || -Half(width) <= n < Half(width) }

  /** Does `v` structurally conform to `s`? Type names play no part. */
  predicate Accepts(s: TypeSchema, v: Value) {
    match s
    case Bool => v.Bool?
    case U8 | U16 | U32 | U64 => v.U64? && UintFits(v.u, s.UintWidth())
    case I8 | I16 | I32 | I64 => v.I64? && IntFits(v.i, s.IntWidth())
    case F32 | F64 => v.F64?
    case Str => v.Str?
    case Bytes => v.Bytes?
    case Seq(elem) => v.Seq? && forall i | 0 <= i < |v.items| :: Accepts(elem, v.items[i])
    case Product(_, fields) =>
      && v.Product? && |fields| == |v.fields|
      && forall i | 0 <= i < |fields| ::
           fields[i].name == v.fields[i].name && Accepts(fields[i].shape, v.fields[i].value)
    case Sum(_, variants) =>
      && v.Sum?
      && exists i | 0 <= i < |variants| ::
           variants[i].name == v.variant && Accepts(variants[i].shape, v.payload)
  }

  /** Equality of shapes, type names aside. */
  predicate Compatible(a: TypeSchema, b: TypeSchema) {
    match a
    case Seq(elem) => b.Seq? && Compatible(elem, b.elem)
    case Product(_, fields) =>
      && b.Product? && |fields| == |b.fields|
      && forall i | 0 <= i < |fields| ::
           fields[i].name == b.fields[i].name && Compatible(fields[i].shape, b.fields[i].shape)
    case Sum(_, variants) =>
      && b.Sum? && |variants| == |b.variants|
      && forall i | 0 <= i < |variants| ::
           variants[i].name == b.variants[i].name && Compatible(variants[i].shape, b.variants[i].shape)
    case _ => a == b
  }

  /** The first variant of that name, or `|variants|`. */
  function Position(variants: seq<Variant>, name: Text): (i: nat)
    ensures i <= |variants|
    ensures i < |variants| ==> variants[i].name == name
    ensures forall j | 0 <= j < i :: variants[j].name != name
  {
    if variants == [] || variants[0].name == name then 0 else 1 + Position(variants[1..], name)
  }

  lemma PositionIs(variants: seq<Variant>, name: Text, i: nat)
    requires i < |variants| && variants[i].name == name
    requires forall j | 0 <= j < i :: variants[j].name != name
    ensures Position(variants, name) == i
  {
  }

  /** No sum anywhere in the shape has two variants of one name. */
  predicate DistinctNames(s: TypeSchema) {
    match s
    case Seq(elem) => DistinctNames(elem)
    case Product(_, fields) => forall i | 0 <= i < |fields| :: DistinctNames(fields[i].shape)
    case Sum(_, variants) =>
      && (forall i | 0 <= i < |variants| :: DistinctNames(variants[i].shape))
      && forall i, j | 0 <= i < j < |variants| :: variants[i].name != variants[j].name
    case _ => true
  }

  /** Equality of values, type names aside. */
  predicate SameValue(v: Value, w: Value) {
    match v
    case Seq(items) =>
      w.Seq? && |items| == |w.items| && forall i | 0 <= i < |items| :: SameValue(items[i], w.items[i])
    case Product(_, fields) =>
      && w.Product? && |fields| == |w.fields|
      && forall i | 0 <= i < |fields| ::
           fields[i].name == w.fields[i].name && SameValue(fields[i].value, w.fields[i].value)
    case Sum(_, variant, payload) =>
      w.Sum? && variant == w.variant && SameValue(payload, w.payload)
    case _ => v == w
  }

  // ---- What `Compatible` means

  /** The shape with every type name blanked. */
  function Unnamed(s: TypeSchema): (r: TypeSchema) {
    match s
    case Seq(elem) => TypeSchema.Seq(Unnamed(elem))
    case Product(_, fields) => TypeSchema.Product([], UnnamedFields(fields))
    case Sum(_, variants) => TypeSchema.Sum([], UnnamedVariants(variants))
    case _ => s
  }

  function UnnamedField(f: SchemaField): (r: SchemaField) {
    match f case SchemaField(name, shape) => SchemaField(name, Unnamed(shape))
  }

  function UnnamedFields(fields: seq<SchemaField>): (r: seq<SchemaField>)
    ensures |r| == |fields|
    ensures forall i | 0 <= i < |fields| :: r[i] == UnnamedField(fields[i])
  {
    seq(|fields|, i requires 0 <= i < |fields| => UnnamedField(fields[i]))
  }

  function UnnamedVariant(v: Variant): (r: Variant) {
    match v case Variant(name, shape) => Variant(name, Unnamed(shape))
  }

  function UnnamedVariants(variants: seq<Variant>): (r: seq<Variant>)
    ensures |r| == |variants|
    ensures forall i | 0 <= i < |variants| :: r[i] == UnnamedVariant(variants[i])
  {
    seq(|variants|, i requires 0 <= i < |variants| => UnnamedVariant(variants[i]))
  }

  /** Compatible shapes are those equal once their type names are blanked. */
  lemma {:induction false} CompatibleIffUnnamedEqual(a: TypeSchema, b: TypeSchema)
    ensures Compatible(a, b) <==> Unnamed(a) == Unnamed(b)
  {
    match a
    case Seq(elem) =>
      if b.Seq? { CompatibleIffUnnamedEqual(elem, b.elem); }
    case Product(_, fields) =>
      if b.Product? { CompatibleFields(fields, b.fields); }
    case Sum(_, variants) =>
      if b.Sum? { CompatibleVariants(variants, b.variants); }
    case _ =>
  }

  lemma {:induction false} CompatibleFields(fs: seq<SchemaField>, gs: seq<SchemaField>)
    ensures UnnamedFields(fs) == UnnamedFields(gs) <==>
            && |fs| == |gs|
            && forall i | 0 <= i < |fs| :: fs[i].name == gs[i].name && Compatible(fs[i].shape, gs[i].shape)
  {
    var x, y := UnnamedFields(fs), UnnamedFields(gs);
    if |fs| == |gs| {
      forall i | 0 <= i < |fs|
        ensures x[i] == y[i] <==> fs[i].name == gs[i].name && Compatible(fs[i].shape, gs[i].shape)
      {
        assert fs[i].shape < fs[i];
        CompatibleIffUnnamedEqual(fs[i].shape, gs[i].shape);
      }
      assert x == y <==> forall i | 0 <= i < |fs| :: x[i] == y[i];
    }
  }

  lemma {:induction false} CompatibleVariants(vs: seq<Variant>, ws: seq<Variant>)
    ensures UnnamedVariants(vs) == UnnamedVariants(ws) <==>
            && |vs| == |ws|
            && forall i | 0 <= i < |vs| :: vs[i].name == ws[i].name && Compatible(vs[i].shape, ws[i].shape)
  {
    var x, y := UnnamedVariants(vs), UnnamedVariants(ws);
    if |vs| == |ws| {
      forall i | 0 <= i < |vs|
        ensures x[i] == y[i] <==> vs[i].name == ws[i].name && Compatible(vs[i].shape, ws[i].shape)
      {
        CompatibleIffUnnamedEqual(vs[i].shape, ws[i].shape);
      }
      assert x == y <==> forall i | 0 <= i < |vs| :: x[i] == y[i];
    }
  }

  lemma CompatibleIsEquivalence(a: TypeSchema, b: TypeSchema, c: TypeSchema)
    ensures Compatible(a, a)
    ensures Compatible(a, b) <==> Compatible(b, a)
    ensures Compatible(a, b) && Compatible(b, c) ==> Compatible(a, c)
  {
    CompatibleIffUnnamedEqual(a, a);
    CompatibleIffUnnamedEqual(a, b);
    CompatibleIffUnnamedEqual(b, a);
    CompatibleIffUnnamedEqual(b, c);
    CompatibleIffUnnamedEqual(a, c);
  }

  /** Compatible shapes accept the same values. */
  lemma {:induction false} CompatibleAccepts(a: TypeSchema, b: TypeSchema, v: Value)
    requires Compatible(a, b)
    ensures Accepts(a, v) <==> Accepts(b, v)
    decreases a
  {
    match a
    case Seq(elem) =>
      if v.Seq? {
        forall i | 0 <= i < |v.items| ensures Accepts(elem, v.items[i]) <==> Accepts(b.elem, v.items[i]) {
          CompatibleAccepts(elem, b.elem, v.items[i]);
        }
      }
    case Product(_, fields) =>
      if v.Product? && |fields| == |v.fields| {
        forall i | 0 <= i < |fields|
          ensures Accepts(fields[i].shape, v.fields[i].value) <==> Accepts(b.fields[i].shape, v.fields[i].value)
        {
          CompatibleAccepts(fields[i].shape, b.fields[i].shape, v.fields[i].value);
        }
      }
    case Sum(_, variants) =>
      if v.Sum? {
        forall i | 0 <= i < |variants|
          ensures Accepts(variants[i].shape, v.payload) <==> Accepts(b.variants[i].shape, v.payload)
        {
          CompatibleAccepts(variants[i].shape, b.variants[i].shape, v.payload);
        }
      }
    case _ =>
  }

  /** Conformance cannot see type names. */
  lemma {:induction false} AcceptsSameValue(s: TypeSchema, v: Value, w: Value)
    requires SameValue(v, w)
    ensures Accepts(s, v) <==> Accepts(s, w)
    decreases s
  {
    match s
    case Seq(elem) =>
      if v.Seq? {
        forall i | 0 <= i < |v.items| ensures Accepts(elem, v.items[i]) <==> Accepts(elem, w.items[i]) {
          AcceptsSameValue(elem, v.items[i], w.items[i]);
        }
      }
    case Product(_, fields) =>
      if v.Product? && |fields| == |v.fields| {
        forall i | 0 <= i < |fields|
          ensures Accepts(fields[i].shape, v.fields[i].value) <==> Accepts(fields[i].shape, w.fields[i].value)
        {
          AcceptsSameValue(fields[i].shape, v.fields[i].value, w.fields[i].value);
        }
      }
    case Sum(_, variants) =>
      if v.Sum? {
        forall i | 0 <= i < |variants|
          ensures Accepts(variants[i].shape, v.payload) <==> Accepts(variants[i].shape, w.payload)
        {
          AcceptsSameValue(variants[i].shape, v.payload, w.payload);
        }
      }
    case _ =>
  }
}
