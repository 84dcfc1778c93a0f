/** The manifest codec in the source's own form: an encoder that fills a fixed buffer by index
    and a decoder that advances a cursor (hitch/src/lib.rs), each proved against the byte-sequence
    functions of `HitchManifest`. */
module HitchNote {
  import opened Words
  import opened Utf8
  import opened HitchSchema
  import opened HitchPacked
  import opened HitchManifest

  /** Writing `enc` at `pos` succeeds exactly when it fits, and changes nothing else. */
  ghost predicate Wrote(before: bytes, pos: nat, enc: bytes, r: Option<nat>, after: bytes) {
    if pos + |enc| <= |before| then
      r == Some(pos + |enc|) && after == before[..pos] + enc + before[pos + |enc|..]
    else r.None?
  }

  /** Two writes in a row are one write of both. */
  lemma WroteBoth(before: bytes, pos: nat, x: bytes, mid: bytes, y: bytes, r: Option<nat>, after: bytes)
    requires Wrote(before, pos, x, Some(pos + |x|), mid) && pos + |x| <= |before|
    requires Wrote(mid, pos + |x|, y, r, after)
    ensures Wrote(before, pos, x + y, r, after)
  {
    assert |mid| == |before|;
    if pos + |x + y| <= |before| {
      assert mid[..pos + |x|] == before[..pos] + x;
      assert mid[pos + |x| + |y|..] == before[pos + |x| + |y|..];
      assert before[..pos] + x + y == before[..pos] + (x + y);
    }
  }

  method PutTagAt(tag: u8, buf: array<u8>, pos: nat) returns (r: Option<nat>)
    modifies buf
    ensures Wrote(old(buf[..]), pos, [tag], r, buf[..])
  {
    if pos >= buf.Length { return None; }
    buf[pos] := tag;
    r := Some(pos + 1);
  }

  /** One more byte of `b` in place. */
  lemma WroteByte(before: bytes, pos: nat, b: bytes, i: nat, mid: bytes, after: bytes)
    requires i < |b| && pos + i < |before| == |mid| && after == mid[pos + i := b[i]]
    requires Wrote(before, pos, b[..i], Some(pos + i), mid)
    ensures Wrote(before, pos, b[..i + 1], Some(pos + i + 1), after)
  {
    assert b[..i + 1] == b[..i] + [b[i]];
    assert after == mid[..pos + i] + [b[i]] + mid[pos + i + 1..];
    WroteBoth(before, pos, b[..i], mid, [b[i]], Some(pos + i + 1), after);
  }

  /** Writes `b` byte by byte. */
  method PutBytesAt(b: bytes, buf: array<u8>, pos: nat) returns (r: Option<nat>)
    requires pos <= buf.Length
    modifies buf
    ensures Wrote(old(buf[..]), pos, b, r, buf[..])
  {
    ghost var before := buf[..];
    var i := 0;
    assert before[..pos] + b[..0] + before[pos..] == before;
    while i < |b|
      invariant 0 <= i <= |b| && pos + i <= buf.Length
      invariant Wrote(before, pos, b[..i], Some(pos + i), buf[..])
    {
      if pos + i >= buf.Length { return None; }
      ghost var mid := buf[..];
      buf[pos + i] := b[i];
      WroteByte(before, pos, b, i, mid, buf[..]);
      i := i + 1;
    }
    assert b[..i] == b;
    r := Some(pos + i);
  }

  method PutU32At(n: nat, buf: array<u8>, pos: nat) returns (r: Option<nat>)
    requires pos <= buf.Length
    modifies buf
    ensures Wrote(old(buf[..]), pos, PutU32(n), r, buf[..])
  {
    r := PutBytesAt(LeBytes(n, 4), buf, pos);
  }

  method PutStrAt(s: Text, buf: array<u8>, pos: nat) returns (r: Option<nat>)
    requires pos <= buf.Length
    modifies buf
    ensures Wrote(old(buf[..]), pos, PutStr(s), r, buf[..])
  {
    r := PutU32At(|s|, buf, pos);
    if r.None? { return None; }
    ghost var mid := buf[..];
    r := PutBytesAt(s, buf, r.value);
    WroteBoth(old(buf[..]), pos, PutU32(|s|), mid, s, r, buf[..]);
  }

  method PutOptStrAt(s: Option<Text>, buf: array<u8>, pos: nat) returns (r: Option<nat>)
    requires pos <= buf.Length
    modifies buf
    ensures Wrote(old(buf[..]), pos, PutOptStr(s), r, buf[..])
  {
    if s.None? {
      r := PutTagAt(0, buf, pos);
      return r;
    }
    r := PutTagAt(1, buf, pos);
    if r.None? { return None; }
    ghost var mid := buf[..];
    r := PutStrAt(s.value, buf, r.value);
    WroteBoth(old(buf[..]), pos, [1], mid, PutStr(s.value), r, buf[..]);
  }

  method PutSchemaAt(s: ConstSchema, buf: array<u8>, pos: nat) returns (r: Option<nat>)
    requires pos <= buf.Length
    modifies buf
    ensures Wrote(old(buf[..]), pos, PutSchema(s), r, buf[..])
    decreases s
  {
    r := PutTagAt(Tag(s), buf, pos);
    PutSchemaTag(s);
    if r.None? { return None; }
    ghost var mid := buf[..];
    if s.Seq? {
      r := PutSchemaAt(s.elem, buf, r.value);
    } else if s.Product? {
      r := PutProductAt(s.typeName, s.fields, buf, r.value);
    } else if s.Sum? {
      r := PutSumAt(s.typeName, s.variants, buf, r.value);
    } else {
      assert mid[..r.value] + [] + mid[r.value..] == mid;
    }
    WroteBoth(old(buf[..]), pos, [Tag(s)], mid, AfterTag(s), r, buf[..]);
  }

  /** What follows the tag of a shape. */
  function AfterTag(s: ConstSchema): (b: bytes) {
    match s
    case Seq(elem) => PutSchema(elem)
    case Product(typeName, fields) => PutProduct(typeName, fields)
    case Sum(typeName, variants) => PutSum(typeName, variants)
    case _ => []
  }

  lemma PutSchemaTag(s: ConstSchema)
    ensures PutSchema(s) == [Tag(s)] + AfterTag(s)
  {
  }

  method PutProductAt(typeName: Text, fields: seq<ConstField>, buf: array<u8>, pos: nat) returns (r: Option<nat>)
    requires pos <= buf.Length
    modifies buf
    ensures Wrote(old(buf[..]), pos, PutProduct(typeName, fields), r, buf[..])
    decreases fields, 2
  {
    r := PutStrAt(typeName, buf, pos);
    if r.None? { return None; }
    ghost var mid := buf[..];
    r := PutProductBodyAt(fields, buf, r.value);
    WroteBoth(old(buf[..]), pos, PutStr(typeName), mid, PutU32(|fields|) + PutFields(fields), r, buf[..]);
  }

  method PutProductBodyAt(fields: seq<ConstField>, buf: array<u8>, pos: nat) returns (r: Option<nat>)
    requires pos <= buf.Length
    modifies buf
    ensures Wrote(old(buf[..]), pos, PutU32(|fields|) + PutFields(fields), r, buf[..])
    decreases fields, 1
  {
    r := PutU32At(|fields|, buf, pos);
    if r.None? { return None; }
    ghost var mid := buf[..];
    r := PutFieldsAt(fields, buf, r.value);
    WroteBoth(old(buf[..]), pos, PutU32(|fields|), mid, PutFields(fields), r, buf[..]);
  }

  method PutSumAt(typeName: Text, variants: seq<ConstVariant>, buf: array<u8>, pos: nat) returns (r: Option<nat>)
    requires pos <= buf.Length
    modifies buf
    ensures Wrote(old(buf[..]), pos, PutSum(typeName, variants), r, buf[..])
    decreases variants, 2
  {
    r := PutStrAt(typeName, buf, pos);
    if r.None? { return None; }
    ghost var mid := buf[..];
    r := PutSumBodyAt(variants, buf, r.value);
    WroteBoth(old(buf[..]), pos, PutStr(typeName), mid, PutU32(|variants|) + PutVariants(variants), r, buf[..]);
  }

  method PutSumBodyAt(variants: seq<ConstVariant>, buf: array<u8>, pos: nat) returns (r: Option<nat>)
    requires pos <= buf.Length
    modifies buf
    ensures Wrote(old(buf[..]), pos, PutU32(|variants|) + PutVariants(variants), r, buf[..])
    decreases variants, 1
  {
    r := PutU32At(|variants|, buf, pos);
    if r.None? { return None; }
    ghost var mid := buf[..];
    r := PutVariantsAt(variants, buf, r.value);
    WroteBoth(old(buf[..]), pos, PutU32(|variants|), mid, PutVariants(variants), r, buf[..]);
  }

  method PutFieldAt(f: ConstField, buf: array<u8>, pos: nat) returns (r: Option<nat>)
    requires pos <= buf.Length
    modifies buf
    ensures Wrote(old(buf[..]), pos, PutField(f), r, buf[..])
    decreases f
  {
    match f
    case ConstField(name, shape) =>
      r := PutOptStrAt(name, buf, pos);
      if r.None? { return None; }
      ghost var mid := buf[..];
      r := PutSchemaAt(shape, buf, r.value);
      WroteBoth(old(buf[..]), pos, PutOptStr(name), mid, PutSchema(shape), r, buf[..]);
  }

  method PutFieldsAt(fields: seq<ConstField>, buf: array<u8>, start: nat) returns (r: Option<nat>)
    requires start <= buf.Length
    modifies buf
    ensures Wrote(old(buf[..]), start, PutFields(fields), r, buf[..])
    decreases fields, 0
  {
    ghost var before, done: bytes := buf[..], [];
    var pos := start;
    assert fields[0..] == fields && before[..start] + [] + before[start..] == before;
    for i := 0 to |fields|
      invariant start + |done| == pos <= buf.Length
      invariant PutFields(fields) == done + PutFields(fields[i..])
      invariant Wrote(before, start, done, Some(pos), buf[..])
    {
      ghost var mid, enc := buf[..], PutField(fields[i]);
      assert fields[i..][1..] == fields[i + 1..];
      ConcatAssociate(done, enc, PutFields(fields[i + 1..]));
      r := PutFieldAt(fields[i], buf, pos);
      if r.None? { return None; }
      WroteBoth(before, start, done, mid, enc, r, buf[..]);
      done, pos := done + enc, r.value;
    }
    assert done + [] == done;
    r := Some(pos);
  }

  method PutVariantAt(v: ConstVariant, buf: array<u8>, pos: nat) returns (r: Option<nat>)
    requires pos <= buf.Length
    modifies buf
    ensures Wrote(old(buf[..]), pos, PutVariant(v), r, buf[..])
    decreases v
  {
    assert v.shape < v;
    r := PutStrAt(v.name, buf, pos);
    if r.None? { return None; }
    ghost var mid := buf[..];
    r := PutSchemaAt(v.shape, buf, r.value);
    WroteBoth(old(buf[..]), pos, PutStr(v.name), mid, PutSchema(v.shape), r, buf[..]);
  }

  method PutVariantsAt(variants: seq<ConstVariant>, buf: array<u8>, start: nat) returns (r: Option<nat>)
    requires start <= buf.Length
    modifies buf
    ensures Wrote(old(buf[..]), start, PutVariants(variants), r, buf[..])
    decreases variants, 0
  {
    ghost var before, done: bytes := buf[..], [];
    var pos := start;
    assert variants[0..] == variants && before[..start] + [] + before[start..] == before;
    for i := 0 to |variants|
      invariant start + |done| == pos <= buf.Length
      invariant PutVariants(variants) == done + PutVariants(variants[i..])
      invariant Wrote(before, start, done, Some(pos), buf[..])
    {
      ghost var mid, enc := buf[..], PutVariant(variants[i]);
      assert variants[i..][1..] == variants[i + 1..];
      ConcatAssociate(done, enc, PutVariants(variants[i + 1..]));
      r := PutVariantAt(variants[i], buf, pos);
      if r.None? { return None; }
      WroteBoth(before, start, done, mid, enc, r, buf[..]);
      done, pos := done + enc, r.value;
    }
    assert done + [] == done;
    r := Some(pos);
  }

  method PutOptSchemaAt(s: Option<ConstSchema>, buf: array<u8>, pos: nat) returns (r: Option<nat>)
    requires pos <= buf.Length
    modifies buf
    ensures Wrote(old(buf[..]), pos, PutOptSchema(s), r, buf[..])
  {
    if s.None? {
      r := PutTagAt(0, buf, pos);
      return r;
    }
    r := PutTagAt(1, buf, pos);
    if r.None? { return None; }
    ghost var mid := buf[..];
    r := PutSchemaAt(s.value, buf, r.value);
    WroteBoth(old(buf[..]), pos, [1], mid, PutSchema(s.value), r, buf[..]);
  }

  method PutSlotAt(slot: Slot, buf: array<u8>, pos: nat) returns (r: Option<nat>)
    requires pos <= buf.Length
    modifies buf
    ensures Wrote(old(buf[..]), pos, PutSlot(slot), r, buf[..])
  {
    r := PutStrAt(slot.name, buf, pos);
    if r.None? { return None; }
    ghost var first := buf[..];
    var at := r.value;
    r := PutTagAt(slot.kind, buf, at);
    if r.None? { return None; }
    ghost var second := buf[..];
    r := PutU32At(slot.rights, buf, r.value);
    WroteBoth(first, at, [slot.kind], second, PutU32(slot.rights), r, buf[..]);
    WroteBoth(old(buf[..]), pos, PutStr(slot.name), first, [slot.kind] + PutU32(slot.rights), r, buf[..]);
  }

  lemma PutSlotsNext(needs: seq<Slot>, i: nat, done: bytes)
    requires i < |needs|
    ensures done + PutSlots(needs[i..]) == (done + PutSlot(needs[i])) + PutSlots(needs[i + 1..])
  {
    assert needs[i..][1..] == needs[i + 1..];
    ConcatAssociate(done, PutSlot(needs[i]), PutSlots(needs[i + 1..]));
  }

  method PutSlotsAt(needs: seq<Slot>, buf: array<u8>, start: nat) returns (r: Option<nat>)
    requires start <= buf.Length
    modifies buf
    ensures Wrote(old(buf[..]), start, PutSlots(needs), r, buf[..])
  {
    ghost var before, done: bytes := buf[..], [];
    var pos := start;
    assert needs[0..] == needs && before[..start] + [] + before[start..] == before;
    for i := 0 to |needs|
      invariant start + |done| == pos <= buf.Length
      invariant PutSlots(needs) == done + PutSlots(needs[i..])
      invariant Wrote(before, start, done, Some(pos), buf[..])
    {
      ghost var mid, enc := buf[..], PutSlot(needs[i]);
      PutSlotsNext(needs, i, done);
      r := PutSlotAt(needs[i], buf, pos);
      if r.None? { return None; }
      WroteBoth(before, start, done, mid, enc, r, buf[..]);
      done, pos := done + enc, r.value;
    }
    assert done + [] == done;
    r := Some(pos);
  }

  method PutNeedsAt(needs: seq<Slot>, buf: array<u8>, pos: nat) returns (r: Option<nat>)
    requires pos <= buf.Length
    modifies buf
    ensures Wrote(old(buf[..]), pos, PutNeeds(needs), r, buf[..])
  {
    r := PutU32At(|needs|, buf, pos);
    if r.None? { return None; }
    ghost var mid := buf[..];
    r := PutSlotsAt(needs, buf, r.value);
    WroteBoth(old(buf[..]), pos, PutU32(|needs|), mid, PutSlots(needs), r, buf[..]);
  }

  method PutOutputAt(m: ConstManifest, buf: array<u8>, pos: nat) returns (r: Option<nat>)
    requires pos <= buf.Length
    modifies buf
    ensures Wrote(old(buf[..]), pos, PutOptSchema(m.output) + PutNeeds(m.needs), r, buf[..])
  {
    r := PutOptSchemaAt(m.output, buf, pos);
    if r.None? { return None; }
    ghost var mid := buf[..];
    r := PutNeedsAt(m.needs, buf, r.value);
    WroteBoth(old(buf[..]), pos, PutOptSchema(m.output), mid, PutNeeds(m.needs), r, buf[..]);
  }

  method PutInputAt(m: ConstManifest, buf: array<u8>, pos: nat) returns (r: Option<nat>)
    requires pos <= buf.Length
    modifies buf
    ensures Wrote(old(buf[..]), pos, PutOptSchema(m.input) + (PutOptSchema(m.output) + PutNeeds(m.needs)), r, buf[..])
  {
    r := PutOptSchemaAt(m.input, buf, pos);
    if r.None? { return None; }
    ghost var mid := buf[..];
    r := PutOutputAt(m, buf, r.value);
    WroteBoth(old(buf[..]), pos, PutOptSchema(m.input), mid, PutOptSchema(m.output) + PutNeeds(m.needs), r, buf[..]);
  }

  method PutPayloadAt(m: ConstManifest, buf: array<u8>, pos: nat) returns (r: Option<nat>)
    requires pos <= buf.Length
    modifies buf
    ensures Wrote(old(buf[..]), pos, Payload(m), r, buf[..])
  {
    r := PutTagAt(MANIFEST_VERSION, buf, pos);
    if r.None? { return None; }
    ghost var mid := buf[..];
    r := PutInputAt(m, buf, r.value);
    WroteBoth(old(buf[..]), pos, [MANIFEST_VERSION], mid,
      PutOptSchema(m.input) + (PutOptSchema(m.output) + PutNeeds(m.needs)), r, buf[..]);
  }

  lemma PatchedNote(m: ConstManifest, zeros: bytes, filled: bytes, after: bytes)
    requires Fits(m) && zeros == Repeat(0, MANIFEST_BYTES)
    requires Wrote(zeros, 4, Payload(m), Some(4 + |Payload(m)|), filled)
    requires after == PutU32(|Payload(m)|) + filled[4..]
    ensures after == Note(m)
  {
    Patched(Payload(m), PutU32(|Payload(m)|), zeros, filled);
    assert zeros[|Framed(m)|..] == Repeat(0, MANIFEST_BYTES - |Framed(m)|);
  }

  lemma Patched(payload: bytes, prefix: bytes, zeros: bytes, filled: bytes)
    requires |prefix| == 4 && 4 + |payload| <= |zeros|
    requires filled == zeros[..4] + payload + zeros[4 + |payload|..]
    ensures prefix + filled[4..] == (prefix + payload) + zeros[|prefix + payload|..]
  {
    ConcatAssociate(zeros[..4], payload, zeros[4 + |payload|..]);
    ConcatAssociate(prefix, payload, zeros[4 + |payload|..]);
  }

  /** Fills a zeroed note and patches the length in last. A manifest that does not fit has no
      note: the source's index panics while compiling. */
  method EncodeManifest(m: ConstManifest) returns (r: Option<array<u8>>)
    ensures r.Some? <==> Fits(m)
    ensures r.Some? ==> r.value[..] == Note(m)
  {
    var buf := new u8[MANIFEST_BYTES](_ => 0);
    ghost var zeros := buf[..];
    var pos := PutPayloadAt(m, buf, 4);
    if pos.None? { return None; }
    ghost var filled := buf[..];
    var prefix := LeBytes(pos.value - 4, 4);
    buf[0], buf[1], buf[2], buf[3] := prefix[0], prefix[1], prefix[2], prefix[3];
    assert buf[..] == prefix + filled[4..];
    PatchedNote(m, zeros, filled, buf[..]);
    r := Some(buf);
  }

  // ---- Decoding with a cursor

  method ReadTagFrom(cur: Cursor) returns (r: Result<u8>)
    modifies cur
    ensures Reads(ReadTag(old(cur.rest)), r, cur.rest)
  {
    var raw :- cur.Take(1);
    r := Ok(raw[0]);
  }

  method ReadStrFrom(cur: Cursor) returns (r: Result<Text>)
    modifies cur
    ensures Reads(ReadStr(old(cur.rest)), r, cur.rest)
  {
    var len :- cur.U32();
    var raw :- cur.Take(len);
    if FromUtf8(raw).Bad? { return Err(SchemaMismatch); }
    r := Ok(raw);
  }

  method ReadOptStrFrom(cur: Cursor) returns (r: Result<Option<Text>>)
    modifies cur
    ensures Reads(ReadOptStr(old(cur.rest)), r, cur.rest)
  {
    var tag :- ReadTagFrom(cur);
    if tag == 0 { return Ok(None); }
    if tag != 1 { return Err(SchemaMismatch); }
    var text :- ReadStrFrom(cur);
    r := Ok(Some(text));
  }

  method ReadSchemaFrom(cur: Cursor) returns (r: Result<TypeSchema>)
    modifies cur
    ensures Reads(ReadSchema(old(cur.rest)), r, cur.rest)
    decreases |cur.rest|, 0
  {
    var tag :- ReadTagFrom(cur);
    if tag < 13 {
      r := Ok(Leaf(tag));
    } else if tag == 13 {
      var elem :- ReadSchemaFrom(cur);
      r := Ok(TypeSchema.Seq(elem));
    } else if tag == 14 {
      r := ReadProductFrom(cur);
    } else if tag == 15 {
      r := ReadSumFrom(cur);
    } else {
      r := Err(SchemaMismatch);
    }
  }

  /** With `done` read and `count` to go, reading on from `b` gives `whole`. */
  ghost predicate FieldsLeft(
      count: nat, b: bytes, done: seq<SchemaField>, whole: Result<Parsed<seq<SchemaField>>>)
  {
    Prepend(done, ReadFields(count, b)) == whole
  }

  lemma FieldsStart(count: nat, b: bytes, whole: Result<Parsed<seq<SchemaField>>>)
    requires whole == ReadFields(count, b)
    ensures FieldsLeft(count, b, [], whole)
  {
    PrependEnds([], whole, []);
  }

  lemma FieldsEnd(b: bytes, done: seq<SchemaField>, whole: Result<Parsed<seq<SchemaField>>>)
    requires FieldsLeft(0, b, done, whole)
    ensures Reads(whole, Ok(done), b)
  {
    PrependEnds(done, whole, b);
  }

  lemma FieldsStep(
      count: nat, b: bytes, done: seq<SchemaField>, whole: Result<Parsed<seq<SchemaField>>>,
      head: Result<SchemaField>, rest: bytes)
    requires count > 0 && FieldsLeft(count, b, done, whole)
    requires Reads(ReadField(b), head, rest)
    ensures head.Err? ==> whole == Err(head.error)
    ensures head.Ok? ==> |rest| <= |b| && FieldsLeft(count - 1, rest, done + [head.value], whole)
  {
    if head.Ok? && ReadFields(count - 1, rest).Ok? {
      ConcatAssociate(done, [head.value], ReadFields(count - 1, rest).value.value);
    }
  }

  method ReadFieldsFrom(count: nat, cur: Cursor) returns (r: Result<seq<SchemaField>>)
    modifies cur
    ensures Reads(ReadFields(count, old(cur.rest)), r, cur.rest)
    decreases |cur.rest|, 1
  {
    ghost var start, whole := cur.rest, ReadFields(count, cur.rest);
    var fields: seq<SchemaField> := [];
    FieldsStart(count, start, whole);
    var left := count;
    while left > 0
      invariant |cur.rest| <= |start|
      invariant FieldsLeft(left, cur.rest, fields, whole)
    {
      ghost var b := cur.rest;
      var item := ReadFieldFrom(cur);
      FieldsStep(left, b, fields, whole, item, cur.rest);
      if item.Err? { return Err(item.error); }
      fields, left := fields + [item.value], left - 1;
    }
    FieldsEnd(cur.rest, fields, whole);
    r := Ok(fields);
  }

  method ReadFieldFrom(cur: Cursor) returns (r: Result<SchemaField>)
    modifies cur
    ensures Reads(ReadField(old(cur.rest)), r, cur.rest)
    decreases |cur.rest|, 0
  {
    var name :- ReadOptStrFrom(cur);
    var shape :- ReadSchemaFrom(cur);
    r := Ok(SchemaField(name, shape));
  }

  method ReadProductFrom(cur: Cursor) returns (r: Result<TypeSchema>)
    modifies cur
    ensures Reads(ReadProduct(old(cur.rest)), r, cur.rest)
    decreases |cur.rest|, 2
  {
    var typeName :- ReadStrFrom(cur);
    var count :- cur.U32();
    var fields :- ReadFieldsFrom(count, cur);
    r := Ok(TypeSchema.Product(typeName, fields));
  }

  lemma VariantsStep(
      count: nat, b: bytes, done: seq<Variant>, whole: Result<Parsed<seq<Variant>>>, head: Result<Variant>, rest: bytes)
    requires count > 0 && Prepend(done, ReadVariants(count, b)) == whole
    requires Reads(ReadVariant(b), head, rest)
    ensures head.Err? ==> whole == Err(head.error)
    ensures head.Ok? ==> |rest| <= |b| && Prepend(done + [head.value], ReadVariants(count - 1, rest)) == whole
  {
    if head.Ok? && ReadVariants(count - 1, rest).Ok? {
      ConcatAssociate(done, [head.value], ReadVariants(count - 1, rest).value.value);
    }
  }

  method ReadVariantsFrom(count: nat, cur: Cursor) returns (r: Result<seq<Variant>>)
    modifies cur
    ensures Reads(ReadVariants(count, old(cur.rest)), r, cur.rest)
    decreases |cur.rest|, 1
  {
    ghost var start, whole := cur.rest, ReadVariants(count, cur.rest);
    var variants: seq<Variant> := [];
    PrependEnds([], whole, []);
    var left := count;
    while left > 0
      invariant |cur.rest| <= |start|
      invariant Prepend(variants, ReadVariants(left, cur.rest)) == whole
    {
      ghost var b := cur.rest;
      var item := ReadVariantFrom(cur);
      VariantsStep(left, b, variants, whole, item, cur.rest);
      if item.Err? { return Err(item.error); }
      variants, left := variants + [item.value], left - 1;
    }
    PrependEnds(variants, whole, cur.rest);
    r := Ok(variants);
  }

  method ReadVariantFrom(cur: Cursor) returns (r: Result<Variant>)
    modifies cur
    ensures Reads(ReadVariant(old(cur.rest)), r, cur.rest)
    decreases |cur.rest|, 0
  {
    var name :- ReadStrFrom(cur);
    var shape :- ReadSchemaFrom(cur);
    r := Ok(Variant(name, shape));
  }

  method ReadSumFrom(cur: Cursor) returns (r: Result<TypeSchema>)
    modifies cur
    ensures Reads(ReadSum(old(cur.rest)), r, cur.rest)
    decreases |cur.rest|, 2
  {
    var typeName :- ReadStrFrom(cur);
    var count :- cur.U32();
    var variants :- ReadVariantsFrom(count, cur);
    r := Ok(TypeSchema.Sum(typeName, variants));
  }

  method ReadOptSchemaFrom(cur: Cursor) returns (r: Result<Option<TypeSchema>>)
    modifies cur
    ensures Reads(ReadOptSchema(old(cur.rest)), r, cur.rest)
  {
    var tag :- ReadTagFrom(cur);
    if tag == 0 { return Ok(None); }
    if tag != 1 { return Err(SchemaMismatch); }
    var shape :- ReadSchemaFrom(cur);
    r := Ok(Some(shape));
  }

  lemma SlotsStep(
      count: nat, b: bytes, done: seq<Slot>, whole: Result<Parsed<seq<Slot>>>, head: Result<Slot>, rest: bytes)
    requires count > 0 && Prepend(done, ReadSlots(count, b)) == whole
    requires Reads(ReadSlot(b), head, rest)
    ensures head.Err? ==> whole == Err(head.error)
    ensures head.Ok? ==> |rest| <= |b| && Prepend(done + [head.value], ReadSlots(count - 1, rest)) == whole
  {
    if head.Ok? && ReadSlots(count - 1, rest).Ok? {
      ConcatAssociate(done, [head.value], ReadSlots(count - 1, rest).value.value);
    }
  }

  method ReadSlotFrom(cur: Cursor) returns (r: Result<Slot>)
    modifies cur
    ensures Reads(ReadSlot(old(cur.rest)), r, cur.rest)
  {
    var name :- ReadStrFrom(cur);
    var kind :- ReadTagFrom(cur);
    var rights :- cur.U32();
    r := Ok(Slot(name, kind, rights));
  }

  method ReadSlotsFrom(count: nat, cur: Cursor) returns (r: Result<seq<Slot>>)
    modifies cur
    ensures Reads(ReadSlots(count, old(cur.rest)), r, cur.rest)
  {
    ghost var whole := ReadSlots(count, cur.rest);
    var needs: seq<Slot> := [];
    PrependEnds([], whole, []);
    for i := 0 to count
      invariant Prepend(needs, ReadSlots(count - i, cur.rest)) == whole
    {
      ghost var b := cur.rest;
      var item := ReadSlotFrom(cur);
      SlotsStep(count - i, b, needs, whole, item, cur.rest);
      if item.Err? { return Err(item.error); }
      needs := needs + [item.value];
    }
    PrependEnds(needs, whole, cur.rest);
    r := Ok(needs);
  }

  method ReadNeedsFrom(cur: Cursor) returns (r: Result<seq<Slot>>)
    modifies cur
    ensures Reads(ReadNeeds(old(cur.rest)), r, cur.rest)
  {
    var count :- cur.U32();
    r := ReadSlotsFrom(count, cur);
  }

  method DecodeManifestFrom(b: bytes) returns (r: Result<Manifest>)
    ensures r == DecodeManifest(b)
  {
    var cur := new Cursor(b);
    var len :- cur.U32();
    var version :- ReadTagFrom(cur);
    if version != MANIFEST_VERSION { return Err(SchemaMismatch); }
    var input :- ReadOptSchemaFrom(cur);
    var output :- ReadOptSchemaFrom(cur);
    var needs :- ReadNeedsFrom(cur);
    if |b| - |cur.rest| - 4 != len { return Err(SchemaMismatch); }
    r := Ok(Manifest(input, output, needs));
  }
}
