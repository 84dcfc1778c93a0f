/** Narrowing an integer to a fitting width and widening it back (hitch/src/lib.rs,
    `push_uint` / `push_int` against `read_uint` / `read_int`). */
module HitchIntegers {
  import opened Words
  import opened HitchSchema
  import opened HitchPacked

  /** The sign bit is the top bit of the last byte. */
  lemma {:induction false} TopBit(raw: bytes)
    requires raw != []
    ensures Pow256(|raw|) == 2 * Half(|raw|)
    ensures raw[|raw| - 1] >= 0x80 <==> LeNat(raw) >= Half(|raw|)
  {
    if |raw| == 1 {
      assert LeNat(raw) == raw[0];
    } else {
      TopBit(raw[1..]);
      assert Half(|raw|) == 256 * Half(|raw| - 1);
      LowByte(raw[0], LeNat(raw[1..]), Half(|raw| - 1));
    }
  }

  /** The low byte does not decide a comparison of the rest. */
  lemma LowByte(low: u8, n: nat, h: nat)
    ensures n >= h <==> low + 256 * n >= 256 * h
  {
  }

  lemma HalfOf8(width: nat)
    requires width <= 8
    ensures Half(width) <= Half(8) && Half(8) == TWO_64 / 2 && Pow256(8) == TWO_64
  {
    Pow256Grows(width, 8);
  }

  lemma SignExtendValue(raw: bytes)
    requires 0 < |raw| <= 8
    ensures Pow256(|raw|) == 2 * Half(|raw|)
    ensures SignExtend(raw) == if LeNat(raw) >= Half(|raw|) then LeNat(raw) - Pow256(|raw|) else LeNat(raw)
  {
    TopBit(raw);
    HalfOf8(|raw|);
    LeNatExtend(raw, 8 - |raw|);
  }

  lemma UintRoundTrip(n: u64, width: nat)
    requires width <= 8 && UintFits(n, width)
    ensures ZeroExtend(LeBytes(n, 8)[..width]) == n
  {
    HalfOf8(width);
    LeBytesTruncate(n, 8, width);
    LeNatExtend(LeBytes(n, width), 8 - width);
    LeNatOfLeBytes(n, width);
  }

  lemma UintCanonical(raw: bytes)
    requires |raw| <= 8
    ensures UintFits(ZeroExtend(raw), |raw|)
    ensures LeBytes(ZeroExtend(raw), 8)[..|raw|] == raw
  {
    LeNatExtend(raw, 8 - |raw|);
    LeBytesTruncate(LeNat(raw), 8, |raw|);
    LeBytesOfLeNat(raw);
  }

  /** Two's complement: the low bytes of a negative word are those of its residue. */
  lemma NegativeBytes(bits: nat, residue: nat, width: nat, wide: nat)
    requires width <= wide && bits == residue + Pow256(wide) - Pow256(width)
    ensures LeBytes(bits, wide)[..width] == LeBytes(residue, width)
  {
    LeBytesTruncate(bits, wide, width);
    LeBytesWrap(residue, width, wide);
  }

  /** The bytes of a fitting signed word are those of its residue. */
  lemma SignedBytes(n: i64, width: nat, wide: nat)
    requires 0 < width <= wide == 8 && -Half(width) <= n < Half(width)
    ensures Pow256(width) >= 2 * Half(width)
    ensures LeBytes(Bits(n), wide)[..width] == LeBytes(if n < 0 then n + Pow256(width) else n, width)
  {
    if n < 0 {
      HalfOf8(width);
      NegativeBytes(Bits(n), n + Pow256(width), width, wide);
    } else {
      LeBytesTruncate(n, wide, width);
    }
  }

  lemma SignExtendResidue(residue: nat, width: nat)
    requires 0 < width <= 8 && residue < Pow256(width)
    ensures Pow256(width) == 2 * Half(width)
    ensures SignExtend(LeBytes(residue, width)) == if residue >= Half(width) then residue - Pow256(width) else residue
  {
    SignExtendValue(LeBytes(residue, width));
    LeNatOfLeBytes(residue, width);
  }

  /** The word a residue of `n` stands for is `n`, with `h` half of `p`. */
  lemma Residue(n: int, h: int, p: int, residue: int)
    requires p == 2 * h && -h <= n < h && residue == if n < 0 then n + p else n
    ensures 0 <= residue < p && n == if residue >= h then residue - p else residue
  {
  }

  lemma IntOfBytes(n: i64, width: nat, raw: bytes, residue: int)
    requires 0 < width <= 8 && -Half(width) <= n < Half(width) && residue == if n < 0 then n + Pow256(width) else n
    requires 0 <= residue && raw == LeBytes(residue, width)
    ensures SignExtend(raw) == n
  {
    TopBit(raw);
    Residue(n, Half(width), Pow256(width), residue);
    SignExtendResidue(residue, width);
  }

  lemma IntRoundTripIn(n: i64, width: nat, wide: nat)
    requires 0 < width <= wide == 8 && IntFits(n, width)
    ensures SignExtend(LeBytes(Bits(n), wide)[..width]) == n
  {
    HalfOf8(width);
    SignedBytes(n, width, wide);
    IntOfBytes(n, width, LeBytes(Bits(n), wide)[..width], if n < 0 then n + Pow256(width) else n);
  }

  lemma IntRoundTrip(n: i64, width: nat)
    requires 0 < width <= 8 && IntFits(n, width)
    ensures SignExtend(LeBytes(Bits(n), 8)[..width]) == n
  {
    IntRoundTripIn(n, width, 8);
  }

  lemma IntCanonicalIn(raw: bytes, wide: nat)
    requires 0 < |raw| <= wide == 8
    ensures IntFits(SignExtend(raw), |raw|)
    ensures LeBytes(Bits(SignExtend(raw)), wide)[..|raw|] == raw
  {
    SignExtendValue(raw);
    SignedBytes(SignExtend(raw), |raw|, wide);
    LeBytesOfLeNat(raw);
  }

  lemma IntCanonical(raw: bytes)
    requires 0 < |raw| <= 8
    ensures IntFits(SignExtend(raw), |raw|)
    ensures LeBytes(Bits(SignExtend(raw)), 8)[..|raw|] == raw
  {
    IntCanonicalIn(raw, 8);
  }
}
