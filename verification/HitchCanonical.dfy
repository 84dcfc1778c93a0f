/** When every decodable byte string is the encoding of what it decodes to: the exact
    condition on a shape under which the packed encoding is canonical (hitch/src/lib.rs). */
module HitchCanonical {
  import opened Words
  import opened HitchSchema
  import opened HitchPacked
  import opened HitchIntegers
  import opened HitchRoundTrip
  import opened HitchAgreement

  /** Does any byte string decode under `s`? */
  predicate Inhabited(s: TypeSchema) {
    match s
    case Product(_, fields) => forall i | 0 <= i < |fields| :: Inhabited(fields[i].shape)
    case Sum(_, variants) => exists i | 0 <= i < |variants| && i < TWO_32 :: Inhabited(variants[i].shape)
    case _ => true
  }

  ghost predicate AllInhabited(fields: seq<SchemaField>) {
    forall i | 0 <= i < |fields| :: Inhabited(fields[i].shape)
  }

  /** No variant that can be read shares its name with an earlier one, and four-byte floats
      survive widening; parts of the shape that nothing decodes to do not matter. */
  ghost predicate Canonical(c: FloatConv, s: TypeSchema) {
    match s
    case F32 => forall w: u32 :: c.narrow(c.widen(w)) == w
    case Seq(elem) => Canonical(c, elem)
    case Product(_, fields) =>
      AllInhabited(fields) ==> forall i | 0 <= i < |fields| :: Canonical(c, fields[i].shape)
    case Sum(_, variants) =>
      forall i | 0 <= i < |variants| && i < TWO_32 && Inhabited(variants[i].shape) ::
        Canonical(c, variants[i].shape) && forall j | 0 <= j < i :: variants[j].name != variants[i].name
    case _ => true
  }

  // ---- A canonical shape repacks to the same bytes

  lemma {:induction false} DecodableInhabited(c: FloatConv, s: TypeSchema, b: bytes)
    requires Unpack(c, s, b).Ok?
    ensures Inhabited(s)
    decreases s, 0
  {
    if s.Product? {
      DecodableFieldsInhabited(c, s.fields, b);
    } else if s.Sum? {
      DecodableInhabited(c, s.variants[LeNat(b[..4])].shape, b[4..]);
    }
  }

  lemma {:induction false} DecodableFieldsInhabited(c: FloatConv, fields: seq<SchemaField>, b: bytes)
    requires UnpackFields(c, fields, b).Ok?
    ensures AllInhabited(fields)
    decreases fields
  {
    if fields != [] {
      assert fields[0] in fields && fields[0].shape < fields[0];
      DecodableInhabited(c, fields[0].shape, b);
      DecodableFieldsInhabited(c, fields[1..], UnpackField(c, fields[0], b).value.rest);
      assert forall i | 0 < i < |fields| :: fields[i] == fields[1..][i - 1];
    }
  }

  lemma {:induction false} Repack(c: FloatConv, s: TypeSchema, b: bytes)
    requires Canonical(c, s) && Unpack(c, s, b).Ok?
    ensures Suffix(b, Unpack(c, s, b).value.rest)
    ensures Pack(c, Unpack(c, s, b).value.value, s) == Ok(Front(b, Unpack(c, s, b).value.rest))
    decreases s, 0
  {
    UnpackDelimited(c, s, b, []);
    var rest := Unpack(c, s, b).value.rest;
    if s.Seq? {
      RepackItems(c, s.elem, LeNat(b[..4]), b[4..], Unpack(c, s, b).value.value.items, rest);
      UnpackItemsDelimited(c, s.elem, LeNat(b[..4]), b[4..], []);
      RepackCount(b);
      FrontCompose(b, b[4..], rest, []);
    } else if s.Product? {
      DecodableFieldsInhabited(c, s.fields, b);
      RepackFields(c, s.fields, b);
    } else if s.Sum? {
      var i := LeNat(b[..4]);
      var shape := s.variants[i].shape;
      DecodableInhabited(c, shape, b[4..]);
      PositionIs(s.variants, s.variants[i].name, i);
      Repack(c, shape, b[4..]);
      RepackCount(b);
      FrontCompose(b, b[4..], rest, []);
    } else {
      RepackLeaf(c, s, b, Unpack(c, s, b).value.value, rest);
    }
  }

  lemma RepackCount(b: bytes)
    requires |b| >= 4
    ensures LeNat(b[..4]) < TWO_32 && LeBytes(LeNat(b[..4]), 4) == b[..4]
    ensures Suffix(b, b[4..]) && Front(b, b[4..]) == b[..4]
  {
    LeBytesOfLeNat(b[..4]);
  }

  lemma RepackLeaf(c: FloatConv, s: TypeSchema, b: bytes, v: Value, rest: bytes)
    requires !s.Seq? && !s.Product? && !s.Sum? && Canonical(c, s)
    requires Suffix(b, rest) && Unpack(c, s, b) == Ok(Parsed(v, rest))
    ensures Pack(c, v, s) == Ok(Front(b, rest))
  {
    if s.UintWidth() > 0 {
      RepackUint(c, s, b, v, rest);
    } else if s.IntWidth() > 0 {
      RepackInt(c, s, b, v, rest);
    } else if s.F32? || s.F64? {
      RepackFloat(c, s, b, v, rest);
    } else if s.Str? || s.Bytes? {
      RepackBlob(b, if s.Str? then v.text else v.data, rest);
    } else {
      TakeDelimited(b, 1, []);
      assert b[..1] == [b[0]];
    }
  }

  lemma RepackBlob(b: bytes, blob: bytes, rest: bytes)
    requires TakeBlob(b) == Ok(Parsed(blob, rest))
    ensures Suffix(b, rest) && PackBlob(blob) == Ok(Front(b, rest))
  {
    RepackCount(b);
    var len := LeNat(b[..4]);
    assert rest == b[4 + len..];
    TakeDelimited(b, 4 + len, []);
    assert b[..4 + len] == b[..4] + b[4..][..len];
  }

  lemma RepackFloat(c: FloatConv, s: TypeSchema, b: bytes, v: Value, rest: bytes)
    requires (s.F32? || s.F64?) && Canonical(c, s) && Unpack(c, s, b) == Ok(Parsed(v, rest))
    ensures Suffix(b, rest) && Pack(c, v, s) == Ok(Front(b, rest))
  {
    var width := if s.F32? then 4 else 8;
    TakeDelimited(b, width, []);
    LeBytesOfLeNat(b[..width]);
  }

  lemma RepackUint(c: FloatConv, s: TypeSchema, b: bytes, v: Value, rest: bytes)
    requires s.UintWidth() > 0 && Unpack(c, s, b) == Ok(Parsed(v, rest))
    ensures Suffix(b, rest) && Pack(c, v, s) == Ok(Front(b, rest))
  {
    var width := s.UintWidth();
    TakeDelimited(b, width, []);
    UintCanonical(b[..width]);
    UintUnfolds(c, s, b, b[..width]);
  }

  lemma RepackInt(c: FloatConv, s: TypeSchema, b: bytes, v: Value, rest: bytes)
    requires s.IntWidth() > 0 && Unpack(c, s, b) == Ok(Parsed(v, rest))
    ensures Suffix(b, rest) && Pack(c, v, s) == Ok(Front(b, rest))
  {
    var width := s.IntWidth();
    TakeDelimited(b, width, []);
    IntCanonical(b[..width]);
    IntUnfolds(c, s, b, b[..width]);
  }

  lemma UintUnfolds(c: FloatConv, s: TypeSchema, b: bytes, raw: bytes)
    requires 0 < s.UintWidth() <= |b| && raw == b[..s.UintWidth()]
    ensures Unpack(c, s, b) == Ok(Parsed(Value.U64(ZeroExtend(raw)), b[s.UintWidth()..]))
    ensures Pack(c, Value.U64(ZeroExtend(raw)), s) == PushUint(ZeroExtend(raw), s.UintWidth())
  {
  }

  lemma IntUnfolds(c: FloatConv, s: TypeSchema, b: bytes, raw: bytes)
    requires 0 < s.IntWidth() <= |b| && raw == b[..s.IntWidth()]
    ensures Unpack(c, s, b) == Ok(Parsed(Value.I64(SignExtend(raw)), b[s.IntWidth()..]))
    ensures Pack(c, Value.I64(SignExtend(raw)), s) == PushInt(SignExtend(raw), s.IntWidth())
  {
  }

  lemma PackItemsCons(c: FloatConv, elem: TypeSchema, v: Value, items: seq<Value>, head: bytes, tail: bytes)
    requires Pack(c, v, elem) == Ok(head) && PackItems(c, items, elem) == Ok(tail)
    ensures PackItems(c, [v] + items, elem) == Ok(head + tail)
  {
    assert ([v] + items)[1..] == items;
  }

  lemma {:induction false} RepackItems(
      c: FloatConv, elem: TypeSchema, count: nat, b: bytes, items: seq<Value>, rest: bytes)
    requires Canonical(c, elem) && UnpackItems(c, elem, count, b) == Ok(Parsed(items, rest))
    ensures Suffix(b, rest) && |items| == count && PackItems(c, items, elem) == Ok(Front(b, rest))
    decreases elem, count + 1
  {
    if count > 0 {
      var head := Unpack(c, elem, b).value;
      var tail := UnpackItems(c, elem, count - 1, head.rest).value;
      RepackItems(c, elem, count - 1, head.rest, tail.value, rest);
      assert Suffix(b, head.rest) && Pack(c, head.value, elem) == Ok(Front(b, head.rest)) by {
        Repack(c, elem, b);
      }
      FrontCompose(b, head.rest, rest, []);
      PackItemsCons(c, elem, head.value, tail.value, Front(b, head.rest), Front(head.rest, rest));
    }
  }

  lemma {:induction false} RepackFields(c: FloatConv, fields: seq<SchemaField>, b: bytes)
    requires forall i | 0 <= i < |fields| :: Canonical(c, fields[i].shape)
    requires UnpackFields(c, fields, b).Ok?
    ensures Suffix(b, UnpackFields(c, fields, b).value.rest)
    ensures |UnpackFields(c, fields, b).value.value| == |fields|
    ensures PackFields(c, UnpackFields(c, fields, b).value.value, fields)
            == Ok(Front(b, UnpackFields(c, fields, b).value.rest))
    decreases fields
  {
    if fields != [] {
      assert fields[0] in fields && fields[0].shape < fields[0];
      var head := UnpackField(c, fields[0], b).value;
      Repack(c, fields[0].shape, b);
      RepackFields(c, fields[1..], head.rest);
      var tail := UnpackFields(c, fields[1..], head.rest).value;
      FrontCompose(b, head.rest, tail.rest, []);
      assert ([head.value] + tail.value)[1..] == tail.value;
    }
  }

  // ---- An uncanonical shape has a byte string that repacks differently

  /** Some byte string decodes under an inhabited shape. */
  lemma {:induction false} Witness(c: FloatConv, s: TypeSchema) returns (b: bytes)
    requires Inhabited(s)
    ensures Unpack(c, s, b).Ok? && Unpack(c, s, b).value.rest == []
    decreases s, 0
  {
    if s.Product? {
      b := WitnessFields(c, s.fields);
    } else if s.Sum? {
      var i :| 0 <= i < |s.variants| && i < TWO_32 && Inhabited(s.variants[i].shape);
      var body := Witness(c, s.variants[i].shape);
      TakeU32OfLe(i, body);
      b := LeBytes(i, 4) + body;
    } else {
      b := WitnessLeaf(c, s);
    }
  }

  lemma WitnessLeaf(c: FloatConv, s: TypeSchema) returns (b: bytes)
    requires !s.Product? && !s.Sum?
    ensures Unpack(c, s, b).Ok? && Unpack(c, s, b).value.rest == []
  {
    if s.Seq? || s.Str? || s.Bytes? {
      TakeU32OfLe(0, []);
      b := LeBytes(0, 4) + [];
    } else {
      b := Repeat(0, FixedWidth(s));
      FixedUnfolds(c, s, b);
    }
  }

  lemma {:induction false} WitnessFields(c: FloatConv, fields: seq<SchemaField>) returns (b: bytes)
    requires AllInhabited(fields)
    ensures UnpackFields(c, fields, b).Ok? && UnpackFields(c, fields, b).value.rest == []
    decreases fields
  {
    if fields == [] {
      b := [];
    } else {
      assert fields[0] in fields && fields[0].shape < fields[0];
      var head := Witness(c, fields[0].shape);
      var tail := WitnessFields(c, fields[1..]);
      UnpackDelimited(c, fields[0].shape, head, tail);
      assert Front(head, []) == head;
      b := head + tail;
    }
  }

  /** `b` decodes under `s` to a value that does not pack back to `b`. */
  ghost predicate Uncanonical(c: FloatConv, s: TypeSchema, b: bytes) {
    && Unpack(c, s, b).Ok?
    && Unpack(c, s, b).value.rest == []
    && Pack(c, Unpack(c, s, b).value.value, s) != Ok(b)
  }

  /** If a repacked value and whatever follows it line up with the bytes it was read from,
      the two splits are the same. */
  lemma Aligned(c: FloatConv, s: TypeSchema, b: bytes, more: bytes, again: bytes, rest: bytes)
    requires Unpack(c, s, b).Ok? && Unpack(c, s, b).value.rest == []
    requires Pack(c, Unpack(c, s, b).value.value, s) == Ok(again)
    requires again + rest == b + more
    ensures again == b && rest == more
  {
    UnpackDelimited(c, s, b, more);
    assert Front(b, []) == b;
    UnpackOfPack(c, Unpack(c, s, b).value.value, s, rest);
    assert |again| == |b|;
    assert again == (again + rest)[..|b|];
    assert b == (b + more)[..|b|];
  }

  lemma {:induction false} UncanonicalBytes(c: FloatConv, s: TypeSchema) returns (b: bytes)
    requires !Canonical(c, s)
    ensures Uncanonical(c, s, b)
    decreases s, 0
  {
    if s.F32? {
      var w: u32 :| c.narrow(c.widen(w)) != w;
      b := LeBytes(w, 4);
      assert Pow256(4) == TWO_32;
      LeNatOfLeBytes(w, 4);
      LeNatOfLeBytes(c.narrow(c.widen(w)), 4);
      assert b[..4] == b && b[4..] == [];
    } else if s.Seq? {
      var body := UncanonicalBytes(c, s.elem);
      b := UncanonicalSeq(c, s.elem, s, body);
    } else if s.Product? {
      var j :| 0 <= j < |s.fields| && !Canonical(c, s.fields[j].shape);
      b := UncanonicalFields(c, s.fields, j);
    } else {
      var i :| 0 <= i < |s.variants| && i < TWO_32 && Inhabited(s.variants[i].shape)
               && !(Canonical(c, s.variants[i].shape)
                    && forall j | 0 <= j < i :: s.variants[j].name != s.variants[i].name);
      var body;
      if Canonical(c, s.variants[i].shape) {
        body := Witness(c, s.variants[i].shape);
      } else {
        body := UncanonicalBytes(c, s.variants[i].shape);
      }
      b := LeBytes(i, 4) + body;
      UncanonicalVariant(c, s, i, body);
    }
  }

  lemma UncanonicalSeq(c: FloatConv, elem: TypeSchema, s: TypeSchema, body: bytes) returns (b: bytes)
    requires s == TypeSchema.Seq(elem) && Uncanonical(c, elem, body)
    ensures Uncanonical(c, s, b)
  {
    b := LeBytes(1, 4) + body;
    var v := Unpack(c, elem, body).value.value;
    assert Unpack(c, s, b) == Ok(Parsed(Value.Seq([v]), [])) by {
      TakeU32OfLe(1, body);
      UnpackItemsCons(c, elem, 0, body, v, [], [], []);
      assert [v] + [] == [v];
    }
    assert PackSeq(c, [v], elem) != Ok(b) by {
      PackItemsOne(c, elem, v);
      if Pack(c, v, elem).Ok? { TailOf(LeBytes(1, 4), Pack(c, v, elem).value); }
      TailOf(LeBytes(1, 4), body);
    }
  }

  lemma PackItemsOne(c: FloatConv, elem: TypeSchema, v: Value)
    ensures PackItems(c, [v], elem) == Pack(c, v, elem)
  {
    assert [v][1..] == [];
    if Pack(c, v, elem).Ok? {
      assert Pack(c, v, elem).value + [] == Pack(c, v, elem).value;
    }
  }

  lemma TailOf(a: bytes, b: bytes)
    ensures (a + b)[|a|..] == b
  {
  }

  lemma UncanonicalVariant(c: FloatConv, s: TypeSchema, i: nat, body: bytes)
    requires s.Sum? && i < |s.variants| && i < TWO_32
    requires Unpack(c, s.variants[i].shape, body).Ok? && Unpack(c, s.variants[i].shape, body).value.rest == []
    requires (exists j | 0 <= j < i :: s.variants[j].name == s.variants[i].name)
             || Uncanonical(c, s.variants[i].shape, body)
    ensures Uncanonical(c, s, LeBytes(i, 4) + body)
  {
    var b := LeBytes(i, 4) + body;
    TakeU32OfLe(i, body);
    var v := Unpack(c, s, b).value.value;
    var k := Position(s.variants, s.variants[i].name);
    assert Pow256(4) == TWO_32;
    LeNatOfLeBytes(i, 4);
    assert v.Sum? && v.variant == s.variants[i].name;
    var again := PackVariant(c, v.variant, v.payload, s.variants);
    if again == Ok(b) {
      assert k < TWO_32 && Pack(c, v.payload, s.variants[k].shape).Ok?;
      var inner := Pack(c, v.payload, s.variants[k].shape).value;
      assert b[..4] == LeBytes(k, 4) && b[..4] == LeBytes(i, 4);
      assert b[4..] == inner && b[4..] == body;
      LeNatOfLeBytes(k, 4);
    }
  }

  lemma {:induction false} UncanonicalFields(c: FloatConv, fields: seq<SchemaField>, j: nat) returns (b: bytes)
    requires AllInhabited(fields) && j < |fields| && !Canonical(c, fields[j].shape)
    ensures UnpackFields(c, fields, b).Ok? && UnpackFields(c, fields, b).value.rest == []
    ensures |UnpackFields(c, fields, b).value.value| == |fields|
    ensures PackFields(c, UnpackFields(c, fields, b).value.value, fields) != Ok(b)
    decreases fields
  {
    assert fields[j] in fields && fields[j].shape < fields[j];
    assert fields[0] in fields && fields[0].shape < fields[0];
    var head, tail;
    if j == 0 {
      head := UncanonicalBytes(c, fields[0].shape);
      tail := WitnessFields(c, fields[1..]);
      UnpackFieldsCount(c, fields[1..], tail);
    } else {
      head := Witness(c, fields[0].shape);
      tail := UncanonicalFields(c, fields[1..], j - 1);
    }
    b := head + tail;
    UnpackDelimited(c, fields[0].shape, head, tail);
    assert Front(head, []) == head;
    var v := UnpackField(c, fields[0], head).value.value;
    var vs := UnpackFields(c, fields[1..], tail).value.value;
    assert ([v] + vs)[1..] == vs;
    var again, rest := Pack(c, v.value, fields[0].shape), PackFields(c, vs, fields[1..]);
    if again.Ok? && rest.Ok? && again.value + rest.value == b {
      Aligned(c, fields[0].shape, head, tail, again.value, rest.value);
    }
  }

  lemma {:induction false} UnpackFieldsCount(c: FloatConv, fields: seq<SchemaField>, b: bytes)
    requires UnpackFields(c, fields, b).Ok?
    ensures |UnpackFields(c, fields, b).value.value| == |fields|
    decreases |fields|
  {
    if fields != [] {
      UnpackFieldsCount(c, fields[1..], UnpackField(c, fields[0], b).value.rest);
    }
  }

  // ---- The theorem

  /** Decoding any bytes and encoding the result gives those bytes back, for every byte
      string the shape decodes, exactly when the shape is canonical. */
  lemma CanonicalIff(c: FloatConv, s: TypeSchema)
    ensures Canonical(c, s) <==>
            forall b: bytes :: Unhitch(c, b, s).Ok? ==> Pack(c, Unhitch(c, b, s).value, s) == Ok(b)
  {
    if Canonical(c, s) {
      forall b: bytes | Unhitch(c, b, s).Ok?
        ensures Pack(c, Unhitch(c, b, s).value, s) == Ok(b)
      {
        Repack(c, s, b);
        assert Front(b, []) == b;
      }
    } else {
      var b := UncanonicalBytes(c, s);
      assert Unhitch(c, b, s).Ok?;
    }
  }

  /** Distinct variant names suffice, four-byte floats aside. */
  lemma {:induction false} DistinctNamesCanonical(c: FloatConv, s: TypeSchema)
    requires DistinctNames(s) && NoF32(s)
    ensures Canonical(c, s)
  {
    match s
    case Seq(elem) => DistinctNamesCanonical(c, elem);
    case Product(_, fields) =>
      forall i | 0 <= i < |fields| ensures Canonical(c, fields[i].shape) {
        DistinctNamesCanonical(c, fields[i].shape);
      }
    case Sum(_, variants) =>
      forall i | 0 <= i < |variants| ensures Canonical(c, variants[i].shape) {
        DistinctNamesCanonical(c, variants[i].shape);
      }
    case _ =>
  }

  /** Under a canonical shape what a reader gets back packs to the bytes it was read from, so
      two values share an encoding exactly when they are restored alike. */
  lemma SameEncodingIff(c: FloatConv, s: TypeSchema, v: Value, w: Value)
    requires Canonical(c, s) && Pack(c, v, s).Ok? && Pack(c, w, s).Ok?
    ensures Pack(c, v, s) == Pack(c, w, s) <==> Restore(c, v, s) == Restore(c, w, s)
  {
    CanonicalIff(c, s);
    UnhitchOfHitch(c, v, s);
    UnhitchOfHitch(c, w, s);
    if Pack(c, v, s) == Pack(c, w, s) { PrefixFree(c, s, v, w); }
  }

  /** Onto: the decodable byte strings are the encodings, each of the value it decodes to, which
      the shape accepts. */
  ghost predicate Onto(c: FloatConv, s: TypeSchema, b: bytes) {
    && (Unhitch(c, b, s).Ok? <==> exists x :: Pack(c, x, s) == Ok(b))
    && (Unhitch(c, b, s).Ok? ==>
          var x := Unhitch(c, b, s).value;
          Accepts(s, x) && Pack(c, x, s) == Ok(b) && Restore(c, x, s) == x)
  }

  /** One to one: two values share an encoding if and only if they are restored alike, which with
      no float stored in four bytes is if and only if they are equal up to type names. */
  ghost predicate OneToOne(c: FloatConv, s: TypeSchema, v: Value, w: Value) {
    && (SameValue(v, w) ==> Pack(c, v, s) == Pack(c, w, s))
    && (Pack(c, v, s).Ok? && Pack(c, w, s).Ok? ==>
          (Pack(c, v, s) == Pack(c, w, s) <==> Restore(c, v, s) == Restore(c, w, s)))
    && (Pack(c, v, s).Ok? && NoF32(s) ==> (Pack(c, v, s) == Pack(c, w, s) <==> SameValue(v, w)))
  }

  lemma PackingIsOnto(c: FloatConv, s: TypeSchema, b: bytes)
    requires Canonical(c, s)
    ensures Onto(c, s, b)
  {
    if Unhitch(c, b, s).Ok? {
      var x := Unhitch(c, b, s).value;
      CanonicalIff(c, s);
      PacksIffAccepted(c, s, x);
      UnhitchOfHitch(c, x, s);
    }
    forall x | Pack(c, x, s) == Ok(b)
      ensures Unhitch(c, b, s).Ok?
    {
      UnhitchOfHitch(c, x, s);
    }
  }

  lemma PackingIsOneToOne(c: FloatConv, s: TypeSchema, v: Value, w: Value)
    requires Canonical(c, s)
    ensures OneToOne(c, s, v, w)
  {
    if SameValue(v, w) { PackSameValue(c, s, v, w); }
    if Pack(c, v, s).Ok? && Pack(c, w, s).Ok? { SameEncodingIff(c, s, v, w); }
    if Pack(c, v, s).Ok? && NoF32(s) && Pack(c, v, s) == Pack(c, w, s) { PackInjective(c, s, v, w); }
  }

  /** Under a canonical shape, packing is a bijection between the values it packs, up to what
      reading forgets, and the byte strings that decode. */
  lemma PackedBijection(c: FloatConv, s: TypeSchema)
    requires Canonical(c, s)
    ensures forall b :: Onto(c, s, b)
    ensures forall v, w :: OneToOne(c, s, v, w)
  {
    forall b ensures Onto(c, s, b) { PackingIsOnto(c, s, b); }
    forall v, w ensures OneToOne(c, s, v, w) { PackingIsOneToOne(c, s, v, w); }
  }
}
