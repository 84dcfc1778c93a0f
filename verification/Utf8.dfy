/** UTF-8 byte sequences: the octet syntax of section 4 of RFC 3629, tied to the
    encoding of scalar values in its section 3, and the facts about character
    boundaries that truncation relies on. */
module Utf8 {
  import opened Words

  /** A string, held as its valid UTF-8 bytes. */
  type Text = b: bytes | Valid(b)

  predicate Cont(b: u8) { 0x80 <= b <= 0xBF }

  /** May `second` follow the lead byte `first` of a three-byte character? */
  predicate SecondOfThree(first: u8, second: u8) {
    || (first == 0xE0 && 0xA0 <= second <= 0xBF)
    || (0xE1 <= first <= 0xEC && Cont(second))
    || (first == 0xED && 0x80 <= second <= 0x9F)
    || (0xEE <= first <= 0xEF && Cont(second))
  }

  /** May `second` follow the lead byte `first` of a four-byte character? */
  predicate SecondOfFour(first: u8, second: u8) {
    || (first == 0xF0 && 0x90 <= second <= 0xBF)
    || (0xF1 <= first <= 0xF3 && Cont(second))
    || (first == 0xF4 && 0x80 <= second <= 0x8F)
  }

  /** How many bytes a lead byte announces; 0 for a byte that cannot lead. */
  function Width(first: u8): (w: nat) {
    if first <= 0x7F then 1
    else if 0xC2 <= first <= 0xDF then 2
    else if 0xE0 <= first <= 0xEF then 3
    else if 0xF0 <= first <= 0xF4 then 4
    else 0
  }

  /** Do the bytes present after the lead byte of `b` fit its character? */
  predicate Follows(b: bytes)
    requires b != []
  {
    && (Width(b[0]) == 2 && |b| >= 2 ==> Cont(b[1]))
    && (Width(b[0]) == 3 && |b| >= 2 ==> SecondOfThree(b[0], b[1]))
    && (Width(b[0]) == 4 && |b| >= 2 ==> SecondOfFour(b[0], b[1]))
    && (Width(b[0]) >= 3 && |b| >= 3 ==> Cont(b[2]))
    && (Width(b[0]) == 4 && |b| >= 4 ==> Cont(b[3]))
  }

  /** Length of the well-formed character at the front of `b`; 0 if there is none. */
  function CharLen(b: bytes): (k: nat)
    ensures k <= |b| && k <= 4
    ensures k > 0 ==> k == Width(b[0]) && !Cont(b[0]) && forall i | 0 < i < k :: Cont(b[i])
  {
    if b != [] && 0 < Width(b[0]) <= |b| && Follows(b) then Width(b[0]) else 0
  }

  predicate Valid(b: bytes)
    decreases |b|
  {
    b == [] || (CharLen(b) > 0 && Valid(b[CharLen(b)..]))
  }

  // ---- Scalar values

  type Scalar = c: nat | c <= 0x10FFFF && !(0xD800 <= c <= 0xDFFF)

  /** Six bits to a continuation byte, the rest to the lead byte. */
  function EncodeScalar(c: Scalar): (b: bytes)
    ensures 1 <= |b| <= 4
  {
    var c1 := c / 64;
    var c2 := c1 / 64;
    var c3 := c2 / 64;
    if c < 0x80 then [c]
    else if c < 0x800 then [0xC0 + c1, 0x80 + c % 64]
    else if c < 0x10000 then [0xE0 + c2, 0x80 + c1 % 64, 0x80 + c % 64]
    else [0xF0 + c3, 0x80 + c2 % 64, 0x80 + c1 % 64, 0x80 + c % 64]
  }

  function Encode(cs: seq<Scalar>): (b: bytes) {
    if cs == [] then [] else EncodeScalar(cs[0]) + Encode(cs[1..])
  }

  function Shift(high: int, cont: int): (c: int) { high * 64 + (cont - 0x80) }

  function DecodeChar(b: bytes): (c: Scalar)
    requires CharLen(b) > 0
  {
    if CharLen(b) == 1 then b[0]
    else if CharLen(b) == 2 then Shift(b[0] - 0xC0, b[1])
    else if CharLen(b) == 3 then Shift(Shift(b[0] - 0xE0, b[1]), b[2])
    else Shift(Shift(Shift(b[0] - 0xF0, b[1]), b[2]), b[3])
  }

  lemma Unshift(high: nat, cont: u8)
    requires Cont(cont)
    ensures Shift(high, cont) / 64 == high && 0x80 + Shift(high, cont) % 64 == cont
  {
  }

  lemma EncodeOfDecode(b: bytes)
    requires CharLen(b) > 0
    ensures EncodeScalar(DecodeChar(b)) == b[..CharLen(b)]
  {
    if CharLen(b) == 1 {
      assert b[..1] == [b[0]];
    } else if CharLen(b) == 2 {
      assert b[..2] == [b[0], b[1]];
      EncodeTwo(b[0], b[1], DecodeChar(b));
    } else if CharLen(b) == 3 {
      assert b[..3] == [b[0], b[1], b[2]];
      EncodeThree(b[0], b[1], b[2], DecodeChar(b));
    } else {
      assert b[..4] == [b[0], b[1], b[2], b[3]];
      EncodeFour(b[0], b[1], b[2], b[3], DecodeChar(b));
    }
  }

  lemma EncodeTwo(first: u8, second: u8, c: Scalar)
    requires 0xC2 <= first <= 0xDF && Cont(second) && c == Shift(first - 0xC0, second)
    ensures EncodeScalar(c) == [first, second]
  {
    Unshift(first - 0xC0, second);
  }

  lemma EncodeThree(first: u8, second: u8, third: u8, c: Scalar)
    requires SecondOfThree(first, second) && Cont(third) && c == Shift(Shift(first - 0xE0, second), third)
    ensures EncodeScalar(c) == [first, second, third]
  {
    var high := Shift(first - 0xE0, second);
    Unshift(first - 0xE0, second);
    Unshift(high, third);
  }

  lemma EncodeFour(first: u8, second: u8, third: u8, fourth: u8, c: Scalar)
    requires SecondOfFour(first, second) && Cont(third) && Cont(fourth)
    requires c == Shift(Shift(Shift(first - 0xF0, second), third), fourth)
    ensures EncodeScalar(c) == [first, second, third, fourth]
  {
    var high := Shift(first - 0xF0, second);
    Unshift(first - 0xF0, second);
    Unshift(high, third);
    Unshift(Shift(high, third), fourth);
  }

  lemma DecodeOfEncode(c: Scalar, rest: bytes)
    ensures CharLen(EncodeScalar(c) + rest) == |EncodeScalar(c)|
    ensures DecodeChar(EncodeScalar(c) + rest) == c
  {
    var b := EncodeScalar(c) + rest;
    var c1 := c / 64;
    var c2 := c1 / 64;
    assert Shift(c1, 0x80 + c % 64) == c && Shift(c2, 0x80 + c1 % 64) == c1;
    assert Shift(c2 / 64, 0x80 + c2 % 64) == c2;
    assert Width(b[0]) == |EncodeScalar(c)|;
    assert Follows(b);
  }

  /** The octet syntax accepts exactly the encodings of scalar-value sequences. */
  lemma ValidIffEncoding(b: bytes)
    ensures Valid(b) <==> exists cs: seq<Scalar> :: Encode(cs) == b
  {
    if Valid(b) {
      var cs := Decode(b);
    }
    forall cs: seq<Scalar> | Encode(cs) == b
      ensures Valid(b)
    {
      EncodeIsValid(cs);
    }
  }

  lemma EncodeCons(c: Scalar, cs: seq<Scalar>)
    ensures Encode([c] + cs) == EncodeScalar(c) + Encode(cs)
  {
    assert ([c] + cs)[1..] == cs;
  }

  lemma {:induction false} Decode(b: bytes) returns (cs: seq<Scalar>)
    requires Valid(b)
    ensures Encode(cs) == b
    decreases |b|
  {
    if b == [] {
      cs := [];
    } else {
      var k := CharLen(b);
      var tail := Decode(b[k..]);
      EncodeOfDecode(b);
      EncodeCons(DecodeChar(b), tail);
      assert b[..k] + b[k..] == b;
      cs := [DecodeChar(b)] + tail;
    }
  }

  lemma {:induction false} EncodeIsValid(cs: seq<Scalar>)
    ensures Valid(Encode(cs))
  {
    if cs != [] {
      EncodeIsValid(cs[1..]);
      DecodeOfEncode(cs[0], Encode(cs[1..]));
      var b := Encode(cs);
      assert b[CharLen(b)..] == Encode(cs[1..]);
    }
  }

  // ---- Boundaries

  /** What follows a character does not change it. */
  lemma CharLenConcat(a: bytes, b: bytes)
    requires CharLen(a) > 0
    ensures CharLen(a + b) == CharLen(a)
  {
  }

  lemma {:induction false} ValidConcat(a: bytes, b: bytes)
    requires Valid(a) && Valid(b)
    ensures Valid(a + b)
    decreases |a|
  {
    if a == [] {
      assert a + b == b;
    } else {
      var k := CharLen(a);
      CharLenConcat(a, b);
      assert (a + b)[k..] == a[k..] + b;
      ValidConcat(a[k..], b);
    }
  }

  /** A cut leaves the first character whole or not at all. */
  lemma CutCharLen(b: bytes, i: nat)
    requires CharLen(b) > 0 && i <= |b|
    ensures CharLen(b[..i]) == if i < CharLen(b) then 0 else CharLen(b)
  {
  }

  /** In valid text the character boundaries are the non-continuation bytes: a cut is
      valid exactly there, and then both halves are. */
  lemma {:induction false} ValidSplit(b: bytes, i: nat)
    requires Valid(b) && i <= |b|
    ensures Valid(b[..i]) <==> i == |b| || !Cont(b[i])
    ensures Valid(b[..i]) ==> Valid(b[i..])
    decreases |b|
  {
    var k := CharLen(b);
    if i == 0 || i == |b| {
      assert i == 0 ==> b[..i] == [] && b[i..] == b;
      assert i == |b| ==> b[..i] == b && b[i..] == [];
    } else {
      CutCharLen(b, i);
      if i >= k {
        ValidSplit(b[k..], i - k);
        assert b[..i][k..] == b[k..][..i - k];
        assert b[i..] == b[k..][i - k..];
      }
    }
  }

  /** Three bytes back from any position there is a boundary. */
  lemma {:induction false} BoundaryNearby(b: bytes, i: nat)
    requires Valid(b) && i < |b|
    ensures exists j | 0 <= j <= i && i - j <= 3 :: !Cont(b[j])
    decreases |b|
  {
    var k := CharLen(b);
    if i < k {
      assert !Cont(b[0]);
    } else {
      BoundaryNearby(b[k..], i - k);
      var j :| 0 <= j <= i - k && i - k - j <= 3 && !Cont(b[k..][j]);
      assert !Cont(b[j + k]);
    }
  }

  // ---- Checking bytes, as `core::str::from_utf8` reports it

  /** `Bad`'s fields are the error's `valid_up_to()` and whether `error_len()` is `None`:
      the input ended inside a character that was well formed so far. */
  datatype Check = Good | Bad(validUpTo: nat, incomplete: bool)

  function ValidUpTo(b: bytes): (n: nat)
    ensures n <= |b| && Valid(b[..n])
    ensures n == |b| <==> Valid(b)
    decreases |b|
  {
    var k := CharLen(b);
    if k == 0 then
      assert b[..0] == [];
      0
    else
      var n := k + ValidUpTo(b[k..]);
      assert b[..n][k..] == b[k..][..n - k];
      assert n == |b| ==> b[..n] == b;
      n
  }

  /** No longer prefix is text. */
  lemma {:induction false} ValidUpToIsLongest(b: bytes, i: nat)
    requires ValidUpTo(b) < i <= |b|
    ensures !Valid(b[..i])
    decreases |b|
  {
    var k := CharLen(b);
    if k == 0 {
      NoFirstChar(b, i);
    } else {
      CutCharLen(b, i);
      ValidUpToIsLongest(b[k..], i - k);
      assert b[..i][k..] == b[k..][..i - k];
    }
  }

  lemma NoFirstChar(b: bytes, i: nat)
    requires CharLen(b) == 0 && 0 < i <= |b|
    ensures CharLen(b[..i]) == 0
  {
  }

  predicate Incomplete(tail: bytes) {
    tail != [] && |tail| < Width(tail[0]) && Follows(tail)
  }

  function FromUtf8(b: bytes): (c: Check)
    ensures c.Good? <==> Valid(b)
    ensures c.Bad? ==> c.validUpTo < |b| && Valid(b[..c.validUpTo])
  {
    var n := ValidUpTo(b);
    if n == |b| then Good else Bad(n, Incomplete(b[n..]))
  }

  /** `u` is the last boundary of `s` at or before `n`, and a cut at `n` past it stops
      inside a character that is well formed so far. */
  ghost predicate StopsAt(s: bytes, n: nat, u: nat)
    requires n <= |s|
  {
    && u <= n
    && Valid(s[..u])
    && (forall i | u < i <= n :: !Valid(s[..i]))
    && (u < n ==> Incomplete(s[u..n]))
  }

  /** Cutting valid text anywhere leaves bytes whose check stops at the last boundary
      before the cut, and stops there only because a character is incomplete. */
  lemma {:induction false} CutValidText(s: bytes, n: nat)
    requires Valid(s) && n <= |s|
    ensures StopsAt(s, n, ValidUpTo(s[..n]))
    decreases |s|
  {
    var k := CharLen(s);
    if n < k {
      CutInsideFirstChar(s, n);
    } else if k > 0 {
      CutValidText(s[k..], n - k);
      CharLenCut(s, n);
      CutBeyondFirstChar(s, n, ValidUpTo(s[k..][..n - k]));
    }
  }

  lemma CutInsideFirstChar(s: bytes, n: nat)
    requires n < CharLen(s)
    ensures StopsAt(s, n, 0) && ValidUpTo(s[..n]) == 0
  {
    forall i | 0 < i <= n
      ensures !Valid(s[..i])
    {
      assert CharLen(s[..i]) == 0;
    }
    assert s[..n] == s[0..n];
  }

  lemma CutBeyondFirstChar(s: bytes, n: nat, u: nat)
    requires 0 < CharLen(s) <= n <= |s|
    requires StopsAt(s[CharLen(s)..], n - CharLen(s), u)
    ensures StopsAt(s, n, CharLen(s) + u)
  {
    var k := CharLen(s);
    assert s[k..][u..n - k] == s[k + u..n];
    BeyondFirstChar(s, k + u);
    forall i | k + u < i <= n
      ensures !Valid(s[..i])
    {
      BeyondFirstChar(s, i);
    }
  }

  lemma BeyondFirstChar(s: bytes, i: nat)
    requires 0 < CharLen(s) <= i <= |s|
    ensures Valid(s[..i]) <==> Valid(s[CharLen(s)..][..i - CharLen(s)])
  {
    CharLenCut(s, i);
  }

  /** Nor does where the text is cut, after it. */
  lemma CharLenCut(s: bytes, i: nat)
    requires 0 < CharLen(s) <= i <= |s|
    ensures CharLen(s[..i]) == CharLen(s)
    ensures s[..i][CharLen(s)..] == s[CharLen(s)..][..i - CharLen(s)]
  {
    SliceShift(s, i, CharLen(s));
    CharLenOfFront(s, i);
  }

  lemma CharLenOfFront(s: bytes, i: nat)
    requires 0 < CharLen(s) <= i <= |s|
    ensures CharLen(s[..i]) == CharLen(s)
  {
  }
}
