/** The packed format in plain numbers: which integers each shape takes, and the bytes every shape
    packs to (hitch/src/lib.rs). */
module HitchBytes {
  import opened Words
  import opened Utf8
  import opened HitchSchema
  import opened HitchPacked
  import opened HitchIntegers

  // ---- Ranges

  /** Each unsigned shape accepts the numbers of its own width. */
  lemma AcceptedUints(n: u64)
    ensures Accepts(TypeSchema.U8, Value.U64(n)) <==> n < 0x100
    ensures Accepts(TypeSchema.U16, Value.U64(n)) <==> n < 0x1_0000
    ensures Accepts(TypeSchema.U32, Value.U64(n)) <==> n < 0x1_0000_0000
    ensures Accepts(TypeSchema.U64, Value.U64(n))
  {
    Powers();
  }

  /** And each signed shape those of its two's complement. */
  lemma AcceptedInts(n: i64)
    ensures Accepts(TypeSchema.I8, Value.I64(n)) <==> -0x80 <= n <= 0x7F
    ensures Accepts(TypeSchema.I16, Value.I64(n)) <==> -0x8000 <= n <= 0x7FFF
    ensures Accepts(TypeSchema.I32, Value.I64(n)) <==> -0x8000_0000 <= n <= 0x7FFF_FFFF
    ensures Accepts(TypeSchema.I64, Value.I64(n))
  {
    Powers();
  }

  lemma Powers()
    ensures Pow256(1) == 0x100 && Pow256(2) == 0x1_0000 && Pow256(4) == 0x1_0000_0000
  {
    assert Pow256(3) == 0x100_0000;
  }

  // ---- Little-endian bytes

  /** Four and eight bytes of a number, least significant first. */
  function Four(n: u32): (b: bytes) {
    [n % 0x100, n / 0x100 % 0x100, n / 0x1_0000 % 0x100, n / 0x100_0000]
  }

  function Eight(n: u64): (b: bytes) {
    [n % 0x100, n / 0x100 % 0x100, n / 0x1_0000 % 0x100, n / 0x100_0000 % 0x100,
     n / 0x1_0000_0000 % 0x100, n / 0x100_0000_0000 % 0x100, n / 0x1_0000_0000_0000 % 0x100,
     n / 0x100_0000_0000_0000]
  }

  lemma LeNext(n: nat, width: nat)
    requires width > 0
    ensures LeBytes(n, width) == [n % 0x100] + LeBytes(n / 0x100, width - 1)
  {
  }

  lemma LeTwo(n: nat)
    ensures LeBytes(n, 2) == [n % 0x100, n / 0x100 % 0x100]
  {
    LeNext(n, 2);
    LeNext(n / 0x100, 1);
  }

  lemma LeFourOf(n: nat)
    ensures LeBytes(n, 4) == [n % 0x100, n / 0x100 % 0x100, n / 0x1_0000 % 0x100, n / 0x100_0000 % 0x100]
  {
    LeNext(n, 4);
    LeNext(n / 0x100, 3);
    LeTwo(n / 0x1_0000);
    assert n / 0x100 / 0x100 == n / 0x1_0000 && n / 0x1_0000 / 0x100 == n / 0x100_0000;
  }

  lemma LeFour(n: u32)
    ensures LeBytes(n, 4) == Four(n)
  {
    LeFourOf(n);
    TopByte(n, n / 0x100_0000);
  }

  lemma TopByte(n: u32, top: nat)
    requires top == n / 0x100_0000
    ensures top % 0x100 == top
  {
  }

  /** Dropping the low bytes of a number. */
  lemma LeDrop(n: nat, width: nat)
    ensures LeBytes(n, width + 4) == LeBytes(n, 4) + LeBytes(n / 0x1_0000_0000, width)
  {
    var n1, n2, n3 := n / 0x100, n / 0x1_0000, n / 0x100_0000;
    assert n1 / 0x100 == n2 && n2 / 0x100 == n3 && n3 / 0x100 == n / 0x1_0000_0000;
    LeNext(n, width + 4);
    LeNext(n1, width + 3);
    LeNext(n2, width + 2);
    LeNext(n3, width + 1);
    LeFourOf(n);
  }

  lemma HighQuotients(n: nat, high: nat)
    requires high == n / 0x1_0000_0000
    ensures high / 0x100 == n / 0x100_0000_0000 && high / 0x1_0000 == n / 0x1_0000_0000_0000
    ensures high / 0x100_0000 == n / 0x100_0000_0000_0000
  {
  }

  lemma LeEight(n: u64)
    ensures LeBytes(n, 8) == Eight(n)
  {
    var high := n / 0x1_0000_0000;
    HighQuotients(n, high);
    LeDrop(n, 4);
    LeFourOf(n);
    LeFourOf(high);
    EightSplits(n, high, LeBytes(n, 4), LeBytes(high, 4));
  }

  lemma EightSplits(n: u64, high: nat, a: bytes, b: bytes)
    requires high / 0x100 == n / 0x100_0000_0000 && high / 0x1_0000 == n / 0x1_0000_0000_0000
    requires high == n / 0x1_0000_0000 && high / 0x100_0000 == n / 0x100_0000_0000_0000
    requires a == [n % 0x100, n / 0x100 % 0x100, n / 0x1_0000 % 0x100, n / 0x100_0000 % 0x100]
    requires b == [high % 0x100, high / 0x100 % 0x100, high / 0x1_0000 % 0x100, high / 0x100_0000 % 0x100]
    ensures a + b == Eight(n)
  {
    assert n / 0x100_0000_0000_0000 < 0x100;
  }

  // ---- Leaves

  lemma PushedUint(n: u64, width: nat)
    requires width == 1 || width == 2 || width == 4 || width == 8
    ensures PushUint(n, width) == if UintFits(n, width) then Ok(LeBytes(n, width)) else Err(SchemaMismatch)
  {
    LeBytesTruncate(n, 8, width);
  }

  /** What an unsigned number packs to, shape by shape. */
  lemma PackedUints(c: FloatConv, n: u64)
    ensures Pack(c, Value.U64(n), TypeSchema.U8) == if n < 0x100 then Ok([n]) else Err(SchemaMismatch)
    ensures Pack(c, Value.U64(n), TypeSchema.U16) ==
            if n < 0x1_0000 then Ok([n % 0x100, n / 0x100]) else Err(SchemaMismatch)
    ensures Pack(c, Value.U64(n), TypeSchema.U32) ==
            if n < 0x1_0000_0000 then Ok(Four(n)) else Err(SchemaMismatch)
    ensures Pack(c, Value.U64(n), TypeSchema.U64) == Ok(Eight(n))
  {
    Powers();
    assert Pack(c, Value.U64(n), TypeSchema.U8) == PushUint(n, 1);
    assert Pack(c, Value.U64(n), TypeSchema.U16) == PushUint(n, 2);
    assert Pack(c, Value.U64(n), TypeSchema.U32) == PushUint(n, 4);
    assert Pack(c, Value.U64(n), TypeSchema.U64) == PushUint(n, 8);
    PushedUint(n, 1);
    PushedUint(n, 2);
    PushedUint(n, 4);
    PushedUint(n, 8);
    NarrowBytes(n);
    LeEight(n);
  }

  lemma NarrowBytes(n: nat)
    ensures n < 0x100 ==> LeBytes(n, 1) == [n]
    ensures n < 0x1_0000 ==> LeBytes(n, 2) == [n % 0x100, n / 0x100]
    ensures n < 0x1_0000_0000 ==> LeBytes(n, 4) == Four(n)
  {
    if n < 0x100 { LeOne(n); }
    if n < 0x1_0000 { LePair(n); }
    if n < 0x1_0000_0000 { LeFour(n); }
  }

  lemma LeOne(n: u8)
    ensures LeBytes(n, 1) == [n]
  {
    LeNext(n, 1);
  }

  lemma LePair(n: nat)
    requires n < 0x1_0000
    ensures LeBytes(n, 2) == [n % 0x100, n / 0x100]
  {
    LeTwo(n);
  }

  /** A signed number as the unsigned one, of so many values, with its bits. */
  function Residue(n: i64, values: nat): (m: int) { if n < 0 then n + values else n }

  lemma PushedInt(n: i64, width: nat)
    requires width == 1 || width == 2 || width == 4 || width == 8
    ensures IntFits(n, width) ==> 0 <= Residue(n, Pow256(width)) < Pow256(width)
    ensures PushInt(n, width) ==
            if IntFits(n, width) then Ok(LeBytes(Residue(n, Pow256(width)), width)) else Err(SchemaMismatch)
  {
    if IntFits(n, width) {
      HalfOf8(width);
      assert Pow256(width) == 2 * Half(width);
      SignedBytes(n, width, 8);
    }
  }

  /** What a signed number packs to, shape by shape. */
  lemma PackedInts(c: FloatConv, n: i64)
    ensures Pack(c, Value.I64(n), TypeSchema.I8) ==
            if -0x80 <= n <= 0x7F then Ok([Residue(n, 0x100)]) else Err(SchemaMismatch)
    ensures Pack(c, Value.I64(n), TypeSchema.I16) ==
            if -0x8000 <= n <= 0x7FFF then
              var m := Residue(n, 0x1_0000);
              Ok([m % 0x100, m / 0x100])
            else Err(SchemaMismatch)
    ensures Pack(c, Value.I64(n), TypeSchema.I32) ==
            if -0x8000_0000 <= n <= 0x7FFF_FFFF then Ok(Four(Residue(n, 0x1_0000_0000))) else Err(SchemaMismatch)
    ensures Pack(c, Value.I64(n), TypeSchema.I64) == Ok(Eight(Residue(n, 0x1_0000_0000_0000_0000)))
  {
    Powers();
    HalfOf8(8);
    assert Pack(c, Value.I64(n), TypeSchema.I8) == PushInt(n, 1);
    assert Pack(c, Value.I64(n), TypeSchema.I16) == PushInt(n, 2);
    assert Pack(c, Value.I64(n), TypeSchema.I32) == PushInt(n, 4);
    assert Pack(c, Value.I64(n), TypeSchema.I64) == PushInt(n, 8);
    PushedInt(n, 1);
    PushedInt(n, 2);
    PushedInt(n, 4);
    PushedInt(n, 8);
    if IntFits(n, 1) { NarrowBytes(Residue(n, 0x100)); }
    if IntFits(n, 2) { NarrowBytes(Residue(n, 0x1_0000)); }
    if IntFits(n, 4) { NarrowBytes(Residue(n, 0x1_0000_0000)); }
    LeEight(Residue(n, 0x1_0000_0000_0000_0000));
  }

  /** What the other leaves pack to: a flag, the bits of a float, and text or bytes behind their
      length. */
  lemma PackedLeaves(c: FloatConv, b: bool, bits: u64, text: Text, data: bytes)
    ensures Pack(c, Value.Bool(b), TypeSchema.Bool) == Ok(if b then [1] else [0])
    ensures Pack(c, Value.F64(bits), TypeSchema.F32) == Ok(Four(c.narrow(bits)))
    ensures Pack(c, Value.F64(bits), TypeSchema.F64) == Ok(Eight(bits))
    ensures Pack(c, Value.Str(text), TypeSchema.Str) ==
            if |text| < 0x1_0000_0000 then Ok(Four(|text|) + text) else Err(SchemaMismatch)
    ensures Pack(c, Value.Bytes(data), TypeSchema.Bytes) ==
            if |data| < 0x1_0000_0000 then Ok(Four(|data|) + data) else Err(SchemaMismatch)
  {
    LeFour(c.narrow(bits));
    LeEight(bits);
    PackedBlob(text);
    PackedBlob(data);
  }

  lemma PackedBlob(b: bytes)
    ensures PackBlob(b) == if |b| < 0x1_0000_0000 then Ok(Four(|b|) + b) else Err(SchemaMismatch)
  {
    if |b| < 0x1_0000_0000 { LeFour(|b|); }
  }

  // ---- Shapes of other shapes

  function Concat(parts: seq<bytes>): (b: bytes) {
    if parts == [] then [] else parts[0] + Concat(parts[1..])
  }

  /** Each part is what its item packs to. */
  ghost predicate ItemParts(c: FloatConv, items: seq<Value>, elem: TypeSchema, parts: seq<bytes>) {
    |parts| == |items| && forall i | 0 <= i < |items| :: Pack(c, items[i], elem) == Ok(parts[i])
  }

  lemma {:induction false} PackedItems(c: FloatConv, items: seq<Value>, elem: TypeSchema, parts: seq<bytes>)
    requires ItemParts(c, items, elem, parts)
    ensures PackItems(c, items, elem) == Ok(Concat(parts))
    decreases |items|
  {
    if items != [] {
      assert Pack(c, items[0], elem) == Ok(parts[0]);
      PackedItems(c, items[1..], elem, parts[1..]);
    }
  }

  lemma {:induction false} ItemPartsOf(c: FloatConv, items: seq<Value>, elem: TypeSchema) returns (parts: seq<bytes>)
    requires PackItems(c, items, elem).Ok?
    ensures ItemParts(c, items, elem, parts)
    decreases |items|
  {
    parts := [];
    if items != [] {
      var tail := ItemPartsOf(c, items[1..], elem);
      parts := [Pack(c, items[0], elem).value] + tail;
    }
  }

  /** A sequence packs to its count and then its items, in order, if they all pack and the count
      fits; otherwise it is refused. */
  lemma PackedSeq(c: FloatConv, items: seq<Value>, elem: TypeSchema, b: bytes)
    ensures Pack(c, Value.Seq(items), TypeSchema.Seq(elem)) == Ok(b) <==>
            && |items| < 0x1_0000_0000
            && exists parts :: ItemParts(c, items, elem, parts) && b == Four(|items|) + Concat(parts)
  {
    if |items| < 0x1_0000_0000 {
      LeFour(|items|);
      if PackItems(c, items, elem).Ok? {
        var parts := ItemPartsOf(c, items, elem);
        PackedItems(c, items, elem, parts);
      }
      forall parts | ItemParts(c, items, elem, parts)
        ensures PackItems(c, items, elem) == Ok(Concat(parts))
      {
        PackedItems(c, items, elem, parts);
      }
    }
  }

  /** Each part is what its field packs to, and the names agree. */
  ghost predicate FieldParts(c: FloatConv, values: seq<ValueField>, fields: seq<SchemaField>, parts: seq<bytes>) {
    && |parts| == |values| == |fields|
    && forall i | 0 <= i < |fields| ::
         values[i].name == fields[i].name && Pack(c, values[i].value, fields[i].shape) == Ok(parts[i])
  }

  lemma {:induction false} PackedFields(
      c: FloatConv, values: seq<ValueField>, fields: seq<SchemaField>, parts: seq<bytes>)
    requires FieldParts(c, values, fields, parts)
    ensures PackFields(c, values, fields) == Ok(Concat(parts))
    decreases |fields|
  {
    if fields != [] {
      assert Pack(c, values[0].value, fields[0].shape) == Ok(parts[0]);
      PackedFields(c, values[1..], fields[1..], parts[1..]);
    }
  }

  lemma {:induction false} FieldPartsOf(c: FloatConv, values: seq<ValueField>, fields: seq<SchemaField>)
    returns (parts: seq<bytes>)
    requires |values| == |fields| && PackFields(c, values, fields).Ok?
    ensures FieldParts(c, values, fields, parts)
    decreases |fields|
  {
    parts := [];
    if fields != [] {
      var tail := FieldPartsOf(c, values[1..], fields[1..]);
      parts := [PackField(c, values[0], fields[0]).value] + tail;
    }
  }

  /** A product packs to its fields, in order and nothing else, if each has its name and packs. */
  lemma PackedProduct(
      c: FloatConv, name: Text, values: seq<ValueField>, typeName: Text, fields: seq<SchemaField>, b: bytes)
    ensures Pack(c, Value.Product(name, values), TypeSchema.Product(typeName, fields)) == Ok(b) <==>
            exists parts :: FieldParts(c, values, fields, parts) && b == Concat(parts)
  {
    if |values| == |fields| && PackFields(c, values, fields).Ok? {
      var parts := FieldPartsOf(c, values, fields);
      PackedFields(c, values, fields, parts);
    }
    forall parts | FieldParts(c, values, fields, parts)
      ensures |values| == |fields| && PackFields(c, values, fields) == Ok(Concat(parts))
    {
      PackedFields(c, values, fields, parts);
    }
  }

  /** The first variant of that name. */
  ghost predicate FirstNamed(variants: seq<Variant>, name: Text, i: nat) {
    i < |variants| && variants[i].name == name && forall j | 0 <= j < i :: variants[j].name != name
  }

  /** A variant packs to its index, the first of its name, and then its payload. */
  lemma PackedSum(
      c: FloatConv, name: Text, variant: Text, payload: Value, typeName: Text, variants: seq<Variant>, b: bytes)
    ensures Pack(c, Value.Sum(name, variant, payload), TypeSchema.Sum(typeName, variants)) == Ok(b) <==>
            exists i: u32, body ::
              FirstNamed(variants, variant, i) && Pack(c, payload, variants[i].shape) == Ok(body) && b == Four(i) + body
  {
    var k := Position(variants, variant);
    if k < |variants| && k < 0x1_0000_0000 {
      LeFour(k);
      assert FirstNamed(variants, variant, k);
    }
    forall i: u32 | FirstNamed(variants, variant, i)
      ensures i == k
    {
    }
  }

  /** Packing fails in one way only. */
  lemma {:induction false} RefusalIsMismatch(c: FloatConv, v: Value, s: TypeSchema)
    ensures Pack(c, v, s).Err? ==> Pack(c, v, s).error == SchemaMismatch
    decreases s, 0
  {
    if s.Seq? {
      if v.Seq? { ItemsRefused(c, v.items, s.elem); }
    } else if s.Product? {
      if v.Product? && |v.fields| == |s.fields| { FieldsRefused(c, v.fields, s.fields); }
    } else if s.Sum? {
      if v.Sum? && Position(s.variants, v.variant) < |s.variants| {
        RefusalIsMismatch(c, v.payload, s.variants[Position(s.variants, v.variant)].shape);
      }
    }
  }

  lemma {:induction false} ItemsRefused(c: FloatConv, items: seq<Value>, elem: TypeSchema)
    ensures PackItems(c, items, elem).Err? ==> PackItems(c, items, elem).error == SchemaMismatch
    decreases elem, |items| + 1
  {
    if items != [] {
      RefusalIsMismatch(c, items[0], elem);
      ItemsRefused(c, items[1..], elem);
    }
  }

  lemma {:induction false} FieldsRefused(c: FloatConv, values: seq<ValueField>, fields: seq<SchemaField>)
    requires |values| == |fields|
    ensures PackFields(c, values, fields).Err? ==> PackFields(c, values, fields).error == SchemaMismatch
    decreases fields
  {
    if fields != [] {
      assert fields[0] in fields && fields[0].shape < fields[0];
      RefusalIsMismatch(c, values[0].value, fields[0].shape);
      FieldsRefused(c, values[1..], fields[1..]);
    }
  }
}
