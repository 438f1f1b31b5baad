/** `String.toByteArray()`, whose charset defaults to UTF-8 in Kotlin: the bytes of the raw
    nonce that go into the digest. Dafny characters are Unicode scalar values. */
module Utf8 {

  import opened Bytes

  /** The number of bytes a UTF-8 sequence has, read off its lead byte; 0 for a byte that
      cannot start a sequence (a continuation byte or 0xF8..0xFF). */
  function SequenceLength(lead: int): int {
    if lead < 0x80 then 1
    else if lead < 0xC0 then 0
    else if lead < 0xE0 then 2
    else if lead < 0xF0 then 3
    else if lead < 0xF8 then 4
    else 0
  }

  predicate IsContinuation(u: int) {
    0x80 <= u < 0xC0
  }

  /** The UTF-8 form of one scalar value: 1 to 4 bytes, the lead byte announcing the length. */
  function EncodeScalar(c: char): (r: seq<Byte>)
    ensures 1 <= |r| <= 4
    ensures |r| == 1 <==> c as int < 0x80
    ensures |r| == (if c as int < 0x80 then 1 else if c as int < 0x800 then 2
                    else if c as int < 0x1_0000 then 3 else 4)
    ensures SequenceLength(Unsigned(r[0])) == |r|
    ensures forall i :: 1 <= i < |r| ==> IsContinuation(Unsigned(r[i]))
  {
    var cp := c as int;
    if cp < 0x80 then
      [FromUnsigned(cp)]
    else if cp < 0x800 then
      [FromUnsigned(0xC0 + cp / 0x40), FromUnsigned(0x80 + cp % 0x40)]
    else if cp < 0x1_0000 then
      [FromUnsigned(0xE0 + cp / 0x1000), FromUnsigned(0x80 + cp / 0x40 % 0x40),
       FromUnsigned(0x80 + cp % 0x40)]
    else
      [FromUnsigned(0xF0 + cp / 0x4_0000), FromUnsigned(0x80 + cp / 0x1000 % 0x40),
       FromUnsigned(0x80 + cp / 0x40 % 0x40), FromUnsigned(0x80 + cp % 0x40)]
  }

  /** The code point a well-formed UTF-8 sequence of one scalar value stands for. */
  function DecodeScalar(r: seq<Byte>): int
    requires 1 <= |r| <= 4
  {
    if |r| == 1 then Unsigned(r[0])
    else if |r| == 2 then (Unsigned(r[0]) - 0xC0) * 0x40 + (Unsigned(r[1]) - 0x80)
    else if |r| == 3 then
      ((Unsigned(r[0]) - 0xE0) * 0x40 + (Unsigned(r[1]) - 0x80)) * 0x40 + (Unsigned(r[2]) - 0x80)
    else
      (((Unsigned(r[0]) - 0xF0) * 0x40 + (Unsigned(r[1]) - 0x80)) * 0x40 + (Unsigned(r[2]) - 0x80)) * 0x40
      + (Unsigned(r[3]) - 0x80)
  }

  /** Dividing by 0x40 twice is dividing by 0x1000, three times by 0x4_0000. */
  lemma DivSteps(n: nat)
    ensures n / 0x40 / 0x40 == n / 0x1000
    ensures n / 0x1000 / 0x40 == n / 0x4_0000
  {
    var q1, q2, q3 := n / 0x40, n / 0x40 / 0x40, n / 0x40 / 0x40 / 0x40;
    assert n == 0x1000 * q2 + 0x40 * (q1 % 0x40) + n % 0x40;
    assert n / 0x1000 == q2;
    assert n == 0x4_0000 * q3 + 0x1000 * (q2 % 0x40) + 0x40 * (q1 % 0x40) + n % 0x40;
  }

  /** Every scalar value is recovered from its encoding, so distinct characters encode differently. */
  lemma DecodeEncodeScalar(c: char)
    ensures DecodeScalar(EncodeScalar(c)) == c as int
  {
    var cp := c as int;
    DivSteps(cp);
    var q1 := cp / 0x40;
    assert cp == q1 * 0x40 + cp % 0x40;
    var q2 := q1 / 0x40;
    assert q1 == q2 * 0x40 + q1 % 0x40;
    var q3 := q2 / 0x40;
    assert q2 == q3 * 0x40 + q2 % 0x40;
  }

  /** The UTF-8 bytes of a string: the encodings of its characters, in order. */
  function Encode(s: string): (r: seq<Byte>)
    ensures |s| <= |r| <= 4 * |s|
    decreases |s|
  {
    if s == [] then [] else EncodeScalar(s[0]) + Encode(s[1..])
  }

  lemma {:induction false} EncodeAppend(s: string, t: string)
    ensures Encode(s + t) == Encode(s) + Encode(t)
    decreases |s|
  {
    if s == [] {
      assert s + t == t;
    } else {
      assert (s + t)[1..] == s[1..] + t;
      EncodeAppend(s[1..], t);
    }
  }

  predicate IsAscii(s: string) {
    forall i :: 0 <= i < |s| ==> s[i] as int < 0x80
  }

  /** An ASCII string, such as the text form of a UUID, encodes to one byte per character,
      holding the character's code. */
  lemma {:induction false} EncodeAscii(s: string)
    requires IsAscii(s)
    ensures |Encode(s)| == |s|
    ensures forall i :: 0 <= i < |s| ==> Encode(s)[i] as int == s[i] as int
    decreases |s|
  {
    if s != [] {
      assert IsAscii(s[1..]) by {
        forall i | 0 <= i < |s[1..]| ensures s[1..][i] as int < 0x80 { assert s[1..][i] == s[i + 1]; }
      }
      EncodeAscii(s[1..]);
      forall i | 1 <= i < |s| ensures Encode(s)[i] as int == s[i] as int {
        assert Encode(s)[i] == Encode(s[1..])[i - 1];
        assert s[i] == s[1..][i - 1];
      }
    }
  }

  /** UTF-8 is prefix-free, so distinct strings have distinct encodings. */
  lemma {:induction false} EncodeInjective(s: string, t: string)
    requires Encode(s) == Encode(t)
    ensures s == t
    decreases |s|
  {
    if s != [] && t != [] {
      var es, et := EncodeScalar(s[0]), EncodeScalar(t[0]);
      assert Encode(s) == es + Encode(s[1..]);
      assert Encode(t) == et + Encode(t[1..]);
      assert es[0] == Encode(s)[0] == et[0];
      assert |es| == |et|;
      assert es == Encode(s)[..|es|] == et;
      DecodeEncodeScalar(s[0]);
      DecodeEncodeScalar(t[0]);
      assert Encode(s[1..]) == Encode(s)[|es|..] == Encode(t[1..]);
      EncodeInjective(s[1..], t[1..]);
      assert s == [s[0]] + s[1..] && t == [t[0]] + t[1..];
    }
  }

  /** No string other than `s` has the UTF-8 form of `s`. */
  lemma EncodeInjectiveAt(s: string)
    ensures forall t {:trigger Encode(t)} :: Encode(t) == Encode(s) ==> t == s
  {
    forall t | Encode(t) == Encode(s)
      ensures t == s
    {
      EncodeInjective(s, t);
    }
  }
}
