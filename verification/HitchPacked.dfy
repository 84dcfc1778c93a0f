/** The packed encoding: `hitch_packed` / `unhitch_packed` and the recursive codec under
    them (hitch/src/lib.rs). Each operation is given twice, as a function on byte sequences
    and as the source's code over a growing buffer or an advancing cursor. */
module HitchPacked {
  import opened Words
  import opened Utf8
  import opened HitchSchema

  /** How the platform converts between the two float widths, on bit patterns. Rust leaves
      the payload of a converted NaN open, so the conversion is a parameter. */
  datatype FloatConv = FloatConv(narrow: u64 -> u32, widen: u32 -> u64)

  // ---- Integers

  /** The two's-complement bit pattern of a signed word, and back. */
  function Bits(n: i64): (u: u64) { if n < 0 then n + TWO_64 else n }

  function Signed(u: u64): (n: i64) { if u >= TWO_64 / 2 then u - TWO_64 else u }

  function PushU32(n: nat): (r: Result<bytes>) {
    if n < TWO_32 then Ok(LeBytes(n, 4)) else Err(SchemaMismatch)
  }

  function PushUint(n: u64, width: nat): (r: Result<bytes>)
    requires width <= 8
  {
    if UintFits(n, width) then Ok(LeBytes(n, 8)[..width]) else Err(SchemaMismatch)
  }

  function PushInt(n: i64, width: nat): (r: Result<bytes>)
    requires width <= 8
  {
    if IntFits(n, width) then Ok(LeBytes(Bits(n), 8)[..width]) else Err(SchemaMismatch)
  }

  /** Zero-extend little-endian bytes to a word. */
  function ZeroExtend(raw: bytes): (n: u64)
    requires |raw| <= 8
  {
    LeNat(raw + Repeat(0, 8 - |raw|))
  }

  /** Sign-extend little-endian bytes to a signed word. */
  function SignExtend(raw: bytes): (n: i64)
    requires 0 < |raw| <= 8
  {
    var fill: u8 := if raw[|raw| - 1] >= 0x80 then 0xFF else 0;
    Signed(LeNat(raw + Repeat(fill, 8 - |raw|)))
  }

  // ---- Packing

  function Pack(c: FloatConv, v: Value, s: TypeSchema): (r: Result<bytes>)
    decreases s, 0
  {
    match s
    case Bool => if v.Bool? then Ok([if v.b then 1 else 0]) else Err(SchemaMismatch)
    case U8 | U16 | U32 | U64 => if v.U64? then PushUint(v.u, s.UintWidth()) else Err(SchemaMismatch)
    case I8 | I16 | I32 | I64 => if v.I64? then PushInt(v.i, s.IntWidth()) else Err(SchemaMismatch)
    case F32 => if v.F64? then Ok(LeBytes(c.narrow(v.bits), 4)) else Err(SchemaMismatch)
    case F64 => if v.F64? then Ok(LeBytes(v.bits, 8)) else Err(SchemaMismatch)
    case Str => if v.Str? then PackBlob(v.text) else Err(SchemaMismatch)
    case Bytes => if v.Bytes? then PackBlob(v.data) else Err(SchemaMismatch)
    case Seq(elem) => if v.Seq? then PackSeq(c, v.items, elem) else Err(SchemaMismatch)
    case Product(_, fields) =>
      if v.Product? && |fields| == |v.fields| then PackFields(c, v.fields, fields) else Err(SchemaMismatch)
    case Sum(_, variants) =>
      if v.Sum? then PackVariant(c, v.variant, v.payload, variants) else Err(SchemaMismatch)
  }

  function PackSeq(c: FloatConv, items: seq<Value>, elem: TypeSchema): (r: Result<bytes>)
    decreases elem, |items| + 2
  {
    var n :- PushU32(|items|);
    var body :- PackItems(c, items, elem);
    Ok(n + body)
  }

  function PackVariant(c: FloatConv, variant: Text, payload: Value, variants: seq<Variant>): (r: Result<bytes>)
    decreases variants
  {
    var i := Position(variants, variant);
    if i == |variants| then Err(SchemaMismatch)
    else
      var n :- PushU32(i);
      var body :- Pack(c, payload, variants[i].shape);
      Ok(n + body)
  }

  function PackBlob(b: bytes): (r: Result<bytes>) {
    var n :- PushU32(|b|);
    Ok(n + b)
  }

  function PackItems(c: FloatConv, items: seq<Value>, elem: TypeSchema): (r: Result<bytes>)
    decreases elem, |items| + 1
  {
    if items == [] then Ok([])
    else
      var head :- Pack(c, items[0], elem);
      var tail :- PackItems(c, items[1..], elem);
      Ok(head + tail)
  }

  function PackFields(c: FloatConv, values: seq<ValueField>, fields: seq<SchemaField>): (r: Result<bytes>)
    requires |values| == |fields|
    decreases fields
  {
    if fields == [] then Ok([])
    else
      var head :- PackField(c, values[0], fields[0]);
      var tail :- PackFields(c, values[1..], fields[1..]);
      Ok(head + tail)
  }

  function PackField(c: FloatConv, value: ValueField, field: SchemaField): (r: Result<bytes>)
    decreases field, 1
  {
    if value.name == field.name then Pack(c, value.value, field.shape) else Err(SchemaMismatch)
  }

  // ---- Unpacking

  /** What a read yields: a value and the bytes after it. */
  datatype Parsed<+T> = Parsed(value: T, rest: bytes)

  function TakeBytes(b: bytes, n: nat): (r: Result<Parsed<bytes>>) {
    if |b| < n then Err(UnexpectedEnd) else Ok(Parsed(b[..n], b[n..]))
  }

  function TakeU32(b: bytes): (r: Result<Parsed<u32>>) {
    var p :- TakeBytes(b, 4);
    Ok(Parsed(LeNat(p.value), p.rest))
  }

  function TakeBlob(b: bytes): (r: Result<Parsed<bytes>>) {
    var len :- TakeU32(b);
    TakeBytes(len.rest, len.value)
  }

  function Unpack(c: FloatConv, s: TypeSchema, b: bytes): (r: Result<Parsed<Value>>)
    decreases s, 0
  {
    match s
    case Bool =>
      var p :- TakeBytes(b, 1);
      if p.value[0] <= 1 then Ok(Parsed(Value.Bool(p.value[0] == 1), p.rest)) else Err(SchemaMismatch)
    case U8 | U16 | U32 | U64 =>
      var p :- TakeBytes(b, s.UintWidth());
      Ok(Parsed(Value.U64(ZeroExtend(p.value)), p.rest))
    case I8 | I16 | I32 | I64 =>
      var p :- TakeBytes(b, s.IntWidth());
      Ok(Parsed(Value.I64(SignExtend(p.value)), p.rest))
    case F32 =>
      var p :- TakeBytes(b, 4);
      Ok(Parsed(Value.F64(c.widen(LeNat(p.value))), p.rest))
    case F64 =>
      var p :- TakeBytes(b, 8);
      Ok(Parsed(Value.F64(LeNat(p.value)), p.rest))
    case Str =>
      var p :- TakeBlob(b);
      if Valid(p.value) then Ok(Parsed(Value.Str(p.value), p.rest)) else Err(SchemaMismatch)
    case Bytes =>
      var p :- TakeBlob(b);
      Ok(Parsed(Value.Bytes(p.value), p.rest))
    case Seq(elem) =>
      var count :- TakeU32(b);
      var items :- UnpackItems(c, elem, count.value, count.rest);
      Ok(Parsed(Value.Seq(items.value), items.rest))
    case Product(typeName, fields) =>
      var p :- UnpackFields(c, fields, b);
      Ok(Parsed(Value.Product(typeName, p.value), p.rest))
    case Sum(typeName, variants) =>
      var i :- TakeU32(b);
      if i.value >= |variants| then Err(SchemaMismatch)
      else
        var p :- Unpack(c, variants[i.value].shape, i.rest);
        Ok(Parsed(Value.Sum(typeName, variants[i.value].name, p.value), p.rest))
  }

  function UnpackItems(c: FloatConv, elem: TypeSchema, count: nat, b: bytes): (r: Result<Parsed<seq<Value>>>)
    decreases elem, count + 1
  {
    if count == 0 then Ok(Parsed([], b))
    else
      var head :- Unpack(c, elem, b);
      var tail :- UnpackItems(c, elem, count - 1, head.rest);
      Ok(Parsed([head.value] + tail.value, tail.rest))
  }

  function UnpackFields(c: FloatConv, fields: seq<SchemaField>, b: bytes): (r: Result<Parsed<seq<ValueField>>>)
    decreases fields
  {
    if fields == [] then Ok(Parsed([], b))
    else
      var head :- UnpackField(c, fields[0], b);
      var tail :- UnpackFields(c, fields[1..], head.rest);
      Ok(Parsed([head.value] + tail.value, tail.rest))
  }

  function UnpackField(c: FloatConv, field: SchemaField, b: bytes): (r: Result<Parsed<ValueField>>)
    decreases field, 1
  {
    var p :- Unpack(c, field.shape, b);
    Ok(Parsed(ValueField(field.name, p.value), p.rest))
  }

  /** The whole of `b` must be one packed value. */
  function Unhitch(c: FloatConv, b: bytes, s: TypeSchema): (r: Result<Value>) {
    var p :- Unpack(c, s, b);
    if p.rest == [] then Ok(p.value) else Err(TrailingBytes)
  }

  // ---- The source's own form: a buffer that grows, a cursor that advances

  /** Did a write append what the specification yields, or fail as it does? */
  ghost predicate Appends(before: bytes, spec: Result<bytes>, r: Result<()>, after: bytes) {
    if spec.Ok? then r.Ok? && after == before + spec.value else r == Err(spec.error)
  }

  /** Did a read yield what the specification yields, and leave what it leaves? */
  ghost predicate Reads<T>(spec: Result<Parsed<T>>, r: Result<T>, after: bytes) {
    if spec.Ok? then r == Ok(spec.value.value) && after == spec.value.rest else r == Err(spec.error)
  }

  class Buffer {
    var data: bytes

    constructor ()
      ensures data == []
    {
      data := [];
    }

    method Append(b: bytes)
      modifies this
      ensures data == old(data) + b
    {
      data := data + b;
    }
  }

  method PackBlobInto(b: bytes, buf: Buffer) returns (r: Result<()>)
    modifies buf
    ensures Appends(old(buf.data), PackBlob(b), r, buf.data)
  {
    var n :- PushU32(|b|);
    buf.Append(n);
    buf.Append(b);
    ConcatAssociate(old(buf.data), n, b);
    r := Ok(());
  }

  /** The shapes that hold no other shape. */
  method PackLeafInto(c: FloatConv, v: Value, s: TypeSchema, buf: Buffer) returns (r: Result<()>)
    requires !s.Seq? && !s.Product? && !s.Sum?
    modifies buf
    ensures Appends(old(buf.data), Pack(c, v, s), r, buf.data)
  {
    if s.Bool? {
      if !v.Bool? { return Err(SchemaMismatch); }
      buf.Append([if v.b then 1 else 0]);
    } else if s.F32? {
      if !v.F64? { return Err(SchemaMismatch); }
      buf.Append(LeBytes(c.narrow(v.bits), 4));
    } else if s.F64? {
      if !v.F64? { return Err(SchemaMismatch); }
      buf.Append(LeBytes(v.bits, 8));
    } else if s.Str? {
      if !v.Str? { return Err(SchemaMismatch); }
      r := PackBlobInto(v.text, buf);
      return r;
    } else if s.Bytes? {
      if !v.Bytes? { return Err(SchemaMismatch); }
      r := PackBlobInto(v.data, buf);
      return r;
    } else if s.UintWidth() > 0 {
      if !v.U64? { return Err(SchemaMismatch); }
      var b :- PushUint(v.u, s.UintWidth());
      buf.Append(b);
    } else {
      if !v.I64? { return Err(SchemaMismatch); }
      var b :- PushInt(v.i, s.IntWidth());
      buf.Append(b);
    }
    r := Ok(());
  }

  /** Appends what `Pack` yields, or fails as it does. */
  method PackInto(c: FloatConv, v: Value, s: TypeSchema, buf: Buffer) returns (r: Result<()>)
    modifies buf
    ensures Appends(old(buf.data), Pack(c, v, s), r, buf.data)
    decreases s, 0
  {
    if s.Seq? {
      if !v.Seq? { return Err(SchemaMismatch); }
      r := PackSeqInto(c, v.items, s.elem, buf);
    } else if s.Product? {
      if !v.Product? || |s.fields| != |v.fields| { return Err(SchemaMismatch); }
      r := PackFieldsInto(c, v.fields, s.fields, buf);
    } else if s.Sum? {
      if !v.Sum? { return Err(SchemaMismatch); }
      r := PackVariantInto(c, v.variant, v.payload, s.variants, buf);
    } else {
      r := PackLeafInto(c, v, s, buf);
    }
  }

  method PackVariantInto(c: FloatConv, variant: Text, payload: Value, variants: seq<Variant>, buf: Buffer)
    returns (r: Result<()>)
    modifies buf
    ensures Appends(old(buf.data), PackVariant(c, variant, payload, variants), r, buf.data)
    decreases variants
  {
    var i := Position(variants, variant);
    if i == |variants| { return Err(SchemaMismatch); }
    var n :- PushU32(i);
    buf.Append(n);
    var _ :- PackInto(c, payload, variants[i].shape, buf);
    ConcatAssociate(old(buf.data), n, Pack(c, payload, variants[i].shape).value);
    r := Ok(());
  }

  method PackSeqInto(c: FloatConv, items: seq<Value>, elem: TypeSchema, buf: Buffer) returns (r: Result<()>)
    modifies buf
    ensures Appends(old(buf.data), PackSeq(c, items, elem), r, buf.data)
    decreases elem, 2
  {
    var n :- PushU32(|items|);
    buf.Append(n);
    var _ :- PackItemsInto(c, items, elem, buf);
    ConcatAssociate(old(buf.data), n, PackItems(c, items, elem).value);
    r := Ok(());
  }

  /** What a loop has appended, then what is left to append. */
  ghost function Join(done: bytes, left: Result<bytes>): (r: Result<bytes>) {
    if left.Ok? then Ok(done + left.value) else left
  }

  lemma JoinItems(c: FloatConv, items: seq<Value>, elem: TypeSchema, i: nat, done: bytes)
    requires i < |items|
    ensures Join(done, PackItems(c, items[i..], elem)) ==
            if Pack(c, items[i], elem).Err? then Err(Pack(c, items[i], elem).error)
            else Join(done + Pack(c, items[i], elem).value, PackItems(c, items[i + 1..], elem))
  {
    assert items[i..][1..] == items[i + 1..];
    var head, tail := Pack(c, items[i], elem), PackItems(c, items[i + 1..], elem);
    if head.Ok? && tail.Ok? {
      ConcatAssociate(done, head.value, tail.value);
    }
  }

  method PackItemsInto(c: FloatConv, items: seq<Value>, elem: TypeSchema, buf: Buffer) returns (r: Result<()>)
    modifies buf
    ensures Appends(old(buf.data), PackItems(c, items, elem), r, buf.data)
    decreases elem, 1
  {
    ghost var whole := Join(buf.data, PackItems(c, items, elem));
    assert items[0..] == items;
    for i := 0 to |items|
      invariant Join(buf.data, PackItems(c, items[i..], elem)) == whole
    {
      JoinItems(c, items, elem, i, buf.data);
      var _ :- PackInto(c, items[i], elem, buf);
    }
    assert buf.data + [] == buf.data;
    r := Ok(());
  }

  lemma JoinFields(c: FloatConv, values: seq<ValueField>, fields: seq<SchemaField>, i: nat, done: bytes)
    requires i < |fields| == |values|
    ensures Join(done, PackFields(c, values[i..], fields[i..])) ==
            var head := PackField(c, values[i], fields[i]);
            if head.Err? then Err(head.error)
            else Join(done + head.value, PackFields(c, values[i + 1..], fields[i + 1..]))
  {
    assert values[i..][1..] == values[i + 1..] && fields[i..][1..] == fields[i + 1..];
    var head, tail := PackField(c, values[i], fields[i]), PackFields(c, values[i + 1..], fields[i + 1..]);
    if head.Ok? && tail.Ok? {
      ConcatAssociate(done, head.value, tail.value);
    }
  }

  method PackFieldsInto(c: FloatConv, values: seq<ValueField>, fields: seq<SchemaField>, buf: Buffer)
    returns (r: Result<()>)
    requires |values| == |fields|
    modifies buf
    ensures Appends(old(buf.data), PackFields(c, values, fields), r, buf.data)
    decreases fields, 0
  {
    ghost var whole := Join(buf.data, PackFields(c, values, fields));
    assert values[0..] == values && fields[0..] == fields;
    for i := 0 to |fields|
      invariant Join(buf.data, PackFields(c, values[i..], fields[i..])) == whole
    {
      JoinFields(c, values, fields, i, buf.data);
      assert fields[i] in fields && fields[i].shape < fields[i];
      if values[i].name != fields[i].name {
        return Err(SchemaMismatch);
      }
      var _ :- PackInto(c, values[i].value, fields[i].shape, buf);
    }
    assert buf.data + [] == buf.data;
    r := Ok(());
  }

  class Cursor {
    var rest: bytes

    constructor (b: bytes)
      ensures rest == b
    {
      rest := b;
    }

    method Take(n: nat) returns (r: Result<bytes>)
      modifies this
      ensures Reads(TakeBytes(old(rest), n), r, rest)
    {
      if |rest| < n {
        return Err(UnexpectedEnd);
      }
      var head, tail := rest[..n], rest[n..];
      rest := tail;
      r := Ok(head);
    }

    method U32() returns (r: Result<u32>)
      modifies this
      ensures Reads(TakeU32(old(rest)), r, rest)
    {
      var b :- Take(4);
      r := Ok(LeNat(b));
    }
  }

  /** Reads what `Unpack` reads, advancing the cursor past it, or fails as it does. */
  /** The shapes that hold no other shape. */
  method UnpackLeafFrom(c: FloatConv, s: TypeSchema, cur: Cursor) returns (r: Result<Value>)
    requires !s.Seq? && !s.Product? && !s.Sum?
    modifies cur
    ensures Reads(Unpack(c, s, old(cur.rest)), r, cur.rest)
  {
    if s.Bool? {
      var raw :- cur.Take(1);
      if raw[0] == 0 { return Ok(Value.Bool(false)); }
      if raw[0] == 1 { return Ok(Value.Bool(true)); }
      return Err(SchemaMismatch);
    } else if s.F32? {
      var raw :- cur.Take(4);
      return Ok(Value.F64(c.widen(LeNat(raw))));
    } else if s.F64? {
      var raw :- cur.Take(8);
      return Ok(Value.F64(LeNat(raw)));
    } else if s.Str? || s.Bytes? {
      var len :- cur.U32();
      var raw :- cur.Take(len);
      if s.Bytes? { return Ok(Value.Bytes(raw)); }
      if FromUtf8(raw).Bad? { return Err(SchemaMismatch); }
      return Ok(Value.Str(raw));
    } else if s.UintWidth() > 0 {
      var raw :- cur.Take(s.UintWidth());
      return Ok(Value.U64(ZeroExtend(raw)));
    } else {
      var raw :- cur.Take(s.IntWidth());
      return Ok(Value.I64(SignExtend(raw)));
    }
  }

  method UnpackFrom(c: FloatConv, s: TypeSchema, cur: Cursor) returns (r: Result<Value>)
    modifies cur
    ensures Reads(Unpack(c, s, old(cur.rest)), r, cur.rest)
    decreases s, 0
  {
    if s.Seq? {
      var count :- cur.U32();
      var items :- UnpackItemsFrom(c, s.elem, count, cur);
      r := Ok(Value.Seq(items));
    } else if s.Product? {
      var out :- UnpackFieldsFrom(c, s.fields, cur);
      r := Ok(Value.Product(s.typeName, out));
    } else if s.Sum? {
      var i :- cur.U32();
      if i >= |s.variants| { return Err(SchemaMismatch); }
      var payload :- UnpackFrom(c, s.variants[i].shape, cur);
      r := Ok(Value.Sum(s.typeName, s.variants[i].name, payload));
    } else {
      r := UnpackLeafFrom(c, s, cur);
    }
  }

  /** What a loop has read, then what is left to read. */
  ghost function Prepend<T>(done: seq<T>, left: Result<Parsed<seq<T>>>): (r: Result<Parsed<seq<T>>>) {
    if left.Ok? then Ok(Parsed(done + left.value.value, left.value.rest)) else left
  }

  lemma PrependEnds<T>(done: seq<T>, left: Result<Parsed<seq<T>>>, rest: bytes)
    ensures Prepend([], left) == left
    ensures Prepend(done, Ok(Parsed([], rest))) == Ok(Parsed(done, rest))
  {
    assert done + [] == done;
    if left.Ok? {
      assert [] + left.value.value == left.value.value;
    }
  }

  lemma PrependItem(c: FloatConv, elem: TypeSchema, count: nat, b: bytes, done: seq<Value>)
    requires count > 0
    ensures Prepend(done, UnpackItems(c, elem, count, b)) ==
            var head := Unpack(c, elem, b);
            if head.Err? then Err(head.error)
            else Prepend(done + [head.value.value], UnpackItems(c, elem, count - 1, head.value.rest))
  {
    var head := Unpack(c, elem, b);
    if head.Ok? {
      var tail := UnpackItems(c, elem, count - 1, head.value.rest);
      if tail.Ok? {
        ConcatAssociate(done, [head.value.value], tail.value.value);
      }
    }
  }

  lemma PrependField(c: FloatConv, fields: seq<SchemaField>, i: nat, b: bytes, done: seq<ValueField>)
    requires i < |fields|
    ensures Prepend(done, UnpackFields(c, fields[i..], b)) ==
            var head := UnpackField(c, fields[i], b);
            if head.Err? then Err(head.error)
            else Prepend(done + [head.value.value], UnpackFields(c, fields[i + 1..], head.value.rest))
  {
    assert fields[i..][1..] == fields[i + 1..];
    var head := UnpackField(c, fields[i], b);
    if head.Ok? {
      var tail := UnpackFields(c, fields[i + 1..], head.value.rest);
      if tail.Ok? {
        ConcatAssociate(done, [head.value.value], tail.value.value);
      }
    }
  }

  method UnpackItemsFrom(c: FloatConv, elem: TypeSchema, count: nat, cur: Cursor) returns (r: Result<seq<Value>>)
    modifies cur
    ensures Reads(UnpackItems(c, elem, count, old(cur.rest)), r, cur.rest)
    decreases elem, 1
  {
    ghost var whole := UnpackItems(c, elem, count, cur.rest);
    var items: seq<Value> := [];
    PrependEnds([], whole, []);
    var left := count;
    while left > 0
      invariant Prepend(items, UnpackItems(c, elem, left, cur.rest)) == whole
    {
      PrependItem(c, elem, left, cur.rest, items);
      var item :- UnpackFrom(c, elem, cur);
      items, left := items + [item], left - 1;
    }
    PrependEnds(items, whole, cur.rest);
    r := Ok(items);
  }

  method UnpackFieldsFrom(c: FloatConv, fields: seq<SchemaField>, cur: Cursor) returns (r: Result<seq<ValueField>>)
    modifies cur
    ensures Reads(UnpackFields(c, fields, old(cur.rest)), r, cur.rest)
    decreases fields, 0
  {
    ghost var whole := UnpackFields(c, fields, cur.rest);
    var out: seq<ValueField> := [];
    assert fields[0..] == fields;
    PrependEnds([], whole, []);
    for i := 0 to |fields|
      invariant Prepend(out, UnpackFields(c, fields[i..], cur.rest)) == whole
    {
      PrependField(c, fields, i, cur.rest, out);
      assert fields[i] in fields && fields[i].shape < fields[i];
      var value :- UnpackFrom(c, fields[i].shape, cur);
      out := out + [ValueField(fields[i].name, value)];
    }
    PrependEnds(out, whole, cur.rest);
    r := Ok(out);
  }

  method HitchPackedValue(c: FloatConv, v: Value, s: TypeSchema) returns (r: Result<bytes>)
    ensures r == Pack(c, v, s)
  {
    var buf := new Buffer();
    var _ :- PackInto(c, v, s, buf);
    assert [] + Pack(c, v, s).value == Pack(c, v, s).value;
    r := Ok(buf.data);
  }

  method UnhitchPackedBytes(c: FloatConv, b: bytes, s: TypeSchema) returns (r: Result<Value>)
    ensures r == Unhitch(c, b, s)
  {
    var cur := new Cursor(b);
    var value :- UnpackFrom(c, s, cur);
    r := if cur.rest == [] then Ok(value) else Err(TrailingBytes);
  }
}
