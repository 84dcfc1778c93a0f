/** The text the correction loop works on, described without its functions: bytes, whitespace,
    separators, contexts and verdicts (cram-gen/src/lib.rs). */
module CramText {
  import opened Words
  import Utf8
  import opened CramLoop

  // ---- Bytes

  /** The scalar values of a string. */
  function Scalars(s: string): (cs: seq<Utf8.Scalar>)
    ensures |cs| == |s|
  {
    if s == "" then [] else [s[0] as int] + Scalars(s[1..])
  }

  /** The length of a string is that of its UTF-8 encoding. */
  lemma {:induction false} LenIsEncoded(s: string)
    ensures Len(s) == |Utf8.Encode(Scalars(s))|
  {
    if s != "" {
      LenIsEncoded(s[1..]);
      assert Scalars(s)[1..] == Scalars(s[1..]);
      CharIsEncoded(s[0]);
    }
  }

  lemma CharIsEncoded(c: char)
    ensures CharBytes(c) == |Utf8.EncodeScalar(c as int)|
  {
  }

  /** What is kept reads as each separator and then its chunk, in order. */
  lemma TextOfParts(a: seq<Kept>, k: Kept, b: seq<Kept>)
    ensures TextOf([]) == ""
    ensures TextOf(a + [k] + b) == TextOf(a) + (k.sep + k.chunk) + TextOf(b)
  {
    TextOfConcat(a + [k], b);
    TextOfConcat(a, [k]);
    assert TextOf([k]) == k.sep + k.chunk by { assert [k][..0] == []; }
  }

  /** And replies as their chunks, in order. */
  lemma {:induction false} JoinParts(a: seq<string>, c: string, b: seq<string>)
    ensures Join([]) == ""
    ensures Join(a + [c] + b) == Join(a) + c + Join(b)
    decreases |b|
  {
    if b == [] {
      assert a + [c] + b == a + [c] && (a + [c])[..|a|] == a;
    } else {
      var n := |b| - 1;
      assert (a + [c] + b)[..|a| + 1 + n] == a + [c] + b[..n];
      JoinParts(a, c, b[..n]);
      ConcatAssociate(Join(a) + c, Join(b[..n]), b[n]);
    }
  }

  // ---- Whitespace

  ghost predicate AllSpace(s: string) { forall c | c in s :: Whitespace(c) }

  /** The 25 characters of the Unicode property, one by one. */
  lemma WhitespaceIs(c: char)
    ensures Whitespace(c) <==>
            c as int in {
              0x09, 0x0A, 0x0B, 0x0C, 0x0D, 0x20, 0x85, 0xA0, 0x1680, 0x2000, 0x2001, 0x2002, 0x2003, 0x2004, 0x2005,
              0x2006, 0x2007, 0x2008, 0x2009, 0x200A, 0x2028, 0x2029, 0x202F, 0x205F, 0x3000}
  {
  }

  /** `t` is `s` without the whitespace it ends with. */
  ghost predicate Trimmed(s: string, t: string) {
    t <= s && AllSpace(s[|t|..]) && (t != "" ==> !Whitespace(t[|t| - 1]))
  }

  lemma {:induction false} TrimEndTrims(s: string)
    ensures Trimmed(s, TrimEnd(s))
  {
    if s != "" && Whitespace(s[|s| - 1]) {
      var front := s[..|s| - 1];
      TrimEndTrims(front);
      var t := TrimEnd(s);
      assert s[|t|..] == front[|t|..] + [s[|s| - 1]];
    }
  }

  lemma TrimmedNoLonger(s: string, t: string, t': string)
    requires Trimmed(s, t) && Trimmed(s, t')
    ensures |t'| <= |t|
  {
    forall i | |t| <= i < |s|
      ensures Whitespace(s[i])
    {
      assert s[i] == s[|t|..][i - |t|];
    }
  }

  lemma TrimmedOnce(s: string, t: string, t': string)
    requires Trimmed(s, t) && Trimmed(s, t')
    ensures t == t'
  {
    TrimmedNoLonger(s, t, t');
    TrimmedNoLonger(s, t', t);
  }

  // ---- Separators

  /** `sep` is what `discarded` text calls for before `replacement`: nothing if the replacement
      brings whitespace of its own, and else all the whitespace the discarded text opened with. */
  ghost predicate Separates(sep: string, discarded: string, replacement: string) {
    if replacement != "" && Whitespace(replacement[0]) then sep == ""
    else sep <= discarded && AllSpace(sep) && (|sep| < |discarded| ==> !Whitespace(discarded[|sep|]))
  }

  lemma LostSeparatorSeparates(discarded: string, replacement: string)
    ensures Separates(LostSeparator(discarded, replacement), discarded, replacement)
  {
  }

  lemma SeparatesOnce(sep: string, sep': string, discarded: string, replacement: string)
    requires Separates(sep, discarded, replacement) && Separates(sep', discarded, replacement)
    ensures sep == sep'
  {
  }

  // ---- Contexts

  /** `t` is the longest end of `s` within 240 bytes. */
  ghost predicate Context(s: string, t: string) {
    && |t| <= |s| && s[|s| - |t|..] == t && Len(t) <= 240
    && forall i | 0 <= i < |s| - |t| :: Len(s[i..]) > 240
  }

  lemma {:induction false} TailIsContext(s: string)
    ensures Context(s, Tail(s))
  {
    if Len(s) > 240 {
      TailIsContext(s[1..]);
      var t := Tail(s);
      forall i | 0 <= i < |s| - |t|
        ensures Len(s[i..]) > 240
      {
        if i > 0 { assert s[i..] == s[1..][i - 1..]; } else { assert s[i..] == s; }
      }
      assert s[|s| - |t|..] == s[1..][|s| - 1 - |t|..];
    } else {
      assert s[0..] == s;
    }
  }

  // ---- Verdicts

  /** The program in a response is longer than a cap that is not 0. */
  ghost predicate Beyond(o: Oracle, cap: nat, text: string) {
    cap != 0 && |Utf8.Encode(Scalars(o.extract(text)))| > cap
  }

  /** A verdict is that the program is beyond the cap; or, if it is not, that without the
      whitespace it ends with it is not empty and admits no next token; or neither. */
  lemma JudgeSays(o: Oracle, cap: nat, text: string, program: string)
    requires Trimmed(o.extract(text), program)
    ensures TooLong(o, cap, text) <==> Beyond(o, cap, text)
    ensures Judge(o, cap, text) == Overlong <==> Beyond(o, cap, text)
    ensures Judge(o, cap, text) == Doomed <==> !Beyond(o, cap, text) && program != "" && o.dead(program)
  {
    LenIsEncoded(o.extract(text));
    TrimEndTrims(o.extract(text));
    TrimmedOnce(o.extract(text), program, TrimEnd(o.extract(text)));
  }
}
