/** Machine words, bytes and little-endian encodings shared by every component. */
module Words {
  type u8 = n: int | 0 <= n < 0x100
  type u32 = n: int | 0 <= n < 0x1_0000_0000
  type u64 = n: int | 0 <= n < 0x1_0000_0000_0000_0000
  type i64 = n: int | -0x8000_0000_0000_0000 <= n < 0x8000_0000_0000_0000
  type bytes = seq<u8>

  const TWO_32: nat := 0x1_0000_0000
  const TWO_64: nat := 0x1_0000_0000_0000_0000

  datatype Option<+T> = None | Some(value: T)

  function Min(a: int, b: int): (m: int) { if a <= b then a else b }

  function Max(a: int, b: int): (m: int) { if a <= b then b else a }

  /** 256 to the power `width`: how many values `width` bytes can hold. */
  function Pow256(width: nat): (p: nat)
    ensures p > 0
  {
    if width == 0 then 1 else 256 * Pow256(width - 1)
  }

  /** The low `width` bytes of `n`, least significant first. */
  function LeBytes(n: nat, width: nat): (b: bytes)
    ensures |b| == width
    decreases n, width
  {
    if width == 0 then [] else [n % 256] + LeBytes(n / 256, width - 1)
  }

  /** The number little-endian bytes denote. */
  function LeNat(b: bytes): (n: nat)
    ensures n < Pow256(|b|)
  {
    if b == [] then 0 else b[0] + 256 * LeNat(b[1..])
  }

  lemma {:induction false} LeNatOfLeBytes(n: nat, width: nat)
    requires n < Pow256(width)
    ensures LeNat(LeBytes(n, width)) == n
    decreases width
  {
    if width > 0 {
      LeNatOfLeBytes(n / 256, width - 1);
    }
  }

  lemma {:induction false} LeBytesOfLeNat(b: bytes)
    ensures LeBytes(LeNat(b), |b|) == b
  {
    if b != [] {
      var n := LeNat(b[1..]);
      assert (b[0] + 256 * n) % 256 == b[0] && (b[0] + 256 * n) / 256 == n;
      LeBytesOfLeNat(b[1..]);
    }
  }

  /** Truncating a wider encoding gives the narrower one. */
  lemma {:induction false} LeBytesTruncate(n: nat, wide: nat, width: nat)
    requires width <= wide
    ensures LeBytes(n, wide)[..width] == LeBytes(n, width)
    decreases width
  {
    if width > 0 {
      LeBytesTruncate(n / 256, wide - 1, width - 1);
    }
  }

  lemma MulGrows(x: nat, y: nat, b: nat)
    ensures x <= y ==> x * b <= y * b
  {
  }

  /** A quotient is the largest multiple that fits. */
  lemma QuotientAtLeast(x: nat, a: nat, q: nat)
    requires a > 0 && q * a <= x
    ensures q <= x / a
  {
    MulGrows(x / a + 1, q, a);
    assert x < (x / a + 1) * a;
  }

  lemma QuotientGrows(x: nat, y: nat, d: nat)
    requires d > 0 && x <= y
    ensures x / d <= y / d
  {
    QuotientAtLeast(y, d, x / d);
  }

  lemma SliceShift<T>(s: seq<T>, i: nat, k: nat)
    requires k <= i <= |s|
    ensures s[..i][k..] == s[k..][..i - k]
  {
  }

  lemma ConcatAssociate<T>(a: seq<T>, b: seq<T>, c: seq<T>)
    ensures a + b + c == a + (b + c)
  {
  }

  lemma {:induction false} Pow256Grows(a: nat, b: nat)
    requires a <= b
    ensures Pow256(a) <= Pow256(b)
    decreases b
  {
    if a > 0 {
      Pow256Grows(a - 1, b - 1);
    }
  }

  /** A multiple of `256 ^ width` does not reach the low `width` bytes. */
  lemma {:induction false} LeBytesWrap(n: nat, width: nat, wide: nat)
    requires width <= wide
    ensures Pow256(width) <= Pow256(wide)
    ensures LeBytes(n + Pow256(wide) - Pow256(width), width) == LeBytes(n, width)
    decreases width
  {
    Pow256Grows(width, wide);
    if width > 0 {
      Pow256Grows(width - 1, wide - 1);
      LeBytesWrap(n / 256, width - 1, wide - 1);
      var d := Pow256(wide - 1) - Pow256(width - 1);
      assert n + Pow256(wide) - Pow256(width) == n + 256 * d;
      assert (n + 256 * d) % 256 == n % 256 && (n + 256 * d) / 256 == n / 256 + d;
    }
  }

  /** A run of `count` equal bytes. */
  function Repeat(b: u8, count: nat): (r: bytes)
    ensures |r| == count
    ensures forall i | 0 <= i < count :: r[i] == b
  {
    seq(count, _ => b)
  }

  /** What extending `raw` by zero bytes or by all-ones bytes does to its value. */
  lemma {:induction false} LeNatExtend(raw: bytes, count: nat)
    ensures LeNat(raw + Repeat(0, count)) == LeNat(raw)
    ensures LeNat(raw + Repeat(0xFF, count)) == LeNat(raw) + Pow256(|raw| + count) - Pow256(|raw|)
    decreases |raw| + count
  {
    if raw != [] {
      assert (raw + Repeat(0, count))[1..] == raw[1..] + Repeat(0, count);
      assert (raw + Repeat(0xFF, count))[1..] == raw[1..] + Repeat(0xFF, count);
      LeNatExtend(raw[1..], count);
    } else if count > 0 {
      assert (raw + Repeat(0, count))[1..] == raw + Repeat(0, count - 1);
      assert (raw + Repeat(0xFF, count))[1..] == raw + Repeat(0xFF, count - 1);
      LeNatExtend(raw, count - 1);
    }
  }
}
